/**
 `google::protobuf::Map::InnerMap`: a chaining hash table whose full lists turn into trees
 shared by a pair of buckets. The table holds untyped pointers; what an entry means is found
 out by comparing it with its partner, as in the original. The ghost field `shape` names the
 layout that the memory realises; `Model` is the finite map that layout stands for.
 */
module HashMap {
  import opened BucketLayout
  import opened TableMemory

  /** `iterator_base`; `node == null` is `end()`. The bucket index may be stale. */
  datatype Iterator = Iterator(node: Node?, bucketIndex: nat)

  /** A node's key identifies it among the live nodes. */
  ghost function NodeOf(ops: KeyOps, s: Shape, k: Key): (n: Node)
    requires ShapeOk(ops, s) && k in AllKeys(s)
    ensures n in Nodes(s) && n.key == k
  {
    var b, i :| 0 <= b < |s| && 0 <= i < |s[b].nodes| && s[b].nodes[i].key == k;
    s[b].nodes[i]
  }

  lemma NodeOfIs(ops: KeyOps, s: Shape, n: Node)
    requires ShapeOk(ops, s) && n in Nodes(s)
    ensures n.key in AllKeys(s) && NodeOf(ops, s, n.key) == n
  {
    var c :| 0 <= c < |s| && n in s[c].nodes;
    var j :| 0 <= j < |s[c].nodes| && s[c].nodes[j] == n;
    var m := NodeOf(ops, s, n.key);
    var b :| 0 <= b < |s| && m in s[b].nodes;
    var i :| 0 <= i < |s[b].nodes| && s[b].nodes[i] == m;
    NodeOfKeyUnique(ops, s, b, i, c, j);
  }

  /** A larger set of live nodes answers for every key as before. */
  lemma NodeOfSub(ops: KeyOps, s: Shape, r: Shape)
    requires ShapeOk(ops, s) && ShapeOk(ops, r) && Nodes(s) <= Nodes(r)
    ensures forall k :: k in AllKeys(s) ==> k in AllKeys(r) && NodeOf(ops, r, k) == NodeOf(ops, s, k)
  {
    forall k | k in AllKeys(s) ensures k in AllKeys(r) && NodeOf(ops, r, k) == NodeOf(ops, s, k) {
      NodeOfIs(ops, r, NodeOf(ops, s, k));
    }
  }

  lemma OrderAfterErase(ops: KeyOps, s: Shape, b: nat, n: Node)
    requires ShapeOk(ops, s) && b < |s| && n in s[b].nodes
    ensures Order(Removed(s, b, n)) == Without(Order(s), n)
  {
    OrderAfterRemove(ops, s, b, n, 0);
  }

  lemma KeysWithoutOne(ops: KeyOps, s: Shape, r: Shape, n: Node)
    requires ShapeOk(ops, s) && ShapeOk(ops, r) && n in Nodes(s) && Nodes(r) == Nodes(s) - {n}
    ensures AllKeys(r) == AllKeys(s) - {n.key}
  {
    forall k | k in AllKeys(s) && k != n.key ensures k in AllKeys(r) {
      NodeOfIs(ops, r, NodeOf(ops, s, k));
    }
    forall k | k in AllKeys(r) ensures k in AllKeys(s) && k != n.key {
      NodeOfIs(ops, s, NodeOf(ops, r, k));
      NodeOfIs(ops, s, n);
    }
  }

  /** The finite map that a layout stands for. */
  ghost function ValuesOf(ops: KeyOps, s: Shape, values: map<Node, Value>): map<Key, Value>
    requires ShapeOk(ops, s) && Nodes(s) <= values.Keys
  {
    map k | k in AllKeys(s) :: values[NodeOf(ops, s, k)]
  }

  lemma ValuesWithOneMore(ops: KeyOps, s: Shape, r: Shape, values: map<Node, Value>, n: Node, v: Value)
    requires ShapeOk(ops, s) && ShapeOk(ops, r) && Nodes(s) <= values.Keys
    requires Nodes(r) == Nodes(s) + {n} && AllKeys(r) == AllKeys(s) + {n.key} && n.key !in AllKeys(s)
    ensures ValuesOf(ops, r, values[n := v]) == ValuesOf(ops, s, values)[n.key := v]
  {
    NodeOfSub(ops, s, r);
    NodeOfIs(ops, r, n);
  }

  lemma ValuesWithOneLess(ops: KeyOps, s: Shape, r: Shape, values: map<Node, Value>, n: Node)
    requires ShapeOk(ops, s) && ShapeOk(ops, r) && n in Nodes(s) && Nodes(r) == Nodes(s) - {n}
    requires Nodes(s) <= values.Keys
    ensures ValuesOf(ops, r, values) == ValuesOf(ops, s, values) - {n.key}
  {
    KeysWithoutOne(ops, s, r, n);
    NodeOfSub(ops, r, s);
  }

  lemma ValuesWithOneChanged(ops: KeyOps, s: Shape, values: map<Node, Value>, n: Node, v: Value)
    requires ShapeOk(ops, s) && n in Nodes(s) && Nodes(s) <= values.Keys
    ensures n.key in ValuesOf(ops, s, values)
    ensures ValuesOf(ops, s, values[n := v]) == ValuesOf(ops, s, values)[n.key := v]
  {
    NodeOfIs(ops, s, n);
  }

  lemma SmallPowers(n: nat)
    ensures PowerOfTwo(8)
    ensures PowerOfTwo(n) && n >= MIN_TABLE_SIZE ==> SizeOk(n) && SizeOk(2 * n)
  {
    assert PowerOfTwo(1) && PowerOfTwo(2) && PowerOfTwo(4);
  }

  lemma EmptyOk(ops: KeyOps, size: nat)
    requires StrictTotalOrder(ops) && SizeOk(size)
    ensures ShapeOk(ops, Empty(size)) && Nodes(Empty(size)) == {} && AllKeys(Empty(size)) == {}
    ensures FirstExact(Empty(size), size) && Trees(Empty(size)) == {}
  {
  }

  lemma SizeOfShape(ops: KeyOps, s: Shape)
    requires ShapeOk(ops, s)
    ensures SizeOk(|s|) && StrictTotalOrder(ops)
  {
  }

  lemma PairInRange(ops: KeyOps, s: Shape, b: nat)
    requires ShapeOk(ops, s) && b < |s| && s[b].Shared? && Aligned(s, b)
    ensures b + 1 < |s| && b + 1 == Partner(b)
  {
  }

  /** Clearing earlier buckets does not change what later entries look like. */
  lemma SameKindWhileClearing(ops: KeyOps, s: Shape, was: seq<Ptr>, table: seq<Ptr>, b: nat)
    requires ShapeOk(ops, s) && |was| == |table| == |s| && b < |s| && Aligned(s, b)
    requires Partner(b) < |s| && EntryKindOk(was, s, b)
    requires forall c :: 0 <= c < b ==> table[c] == Null
    requires forall c :: b <= c < |s| ==> table[c] == was[c]
    ensures EntryIsNonEmptyList(table, b) <==> EntryIsNonEmptyList(was, b)
    ensures EntryIsTree(table, b) <==> s[b].Shared?
  {
  }

  lemma EmptyValues(ops: KeyOps, size: nat, values: map<Node, Value>)
    requires StrictTotalOrder(ops) && SizeOk(size)
    ensures ShapeOk(ops, Empty(size)) && ValuesOf(ops, Empty(size), values) == map[]
  {
    EmptyOk(ops, size);
  }

  lemma NothingLeft(ops: KeyOps, s: Shape, values: map<Node, Value>)
    requires ShapeOk(ops, s) && Order(s) == []
    ensures Nodes(s) == {} && ValuesOf(ops, s, values) == map[]
  {
    OrderVisitsEachOnce(ops, s);
  }

  class InnerMap {
    const ops: KeyOps
    const nil: Value                    // a value-initialised `value_type*`
    var table: seq<Ptr>                 // `table_`
    var next: Links                     // `node->next`, for every node
    var members: Members                // the contents of every tree
    var values: map<Node, Value>        // `node->kv.v_`, for every node
    var numElements: nat
    var numBuckets: nat
    var indexOfFirstNonNull: nat
    ghost var shape: Shape

    /** The pointers realise `shape`, and `shape` is a legal layout. */
    ghost predicate TableOk()
      reads this`shape, this`numBuckets, this`table, this`next, this`members
    {
      && ShapeOk(ops, shape)
      && numBuckets == |shape|
      && Realises(table, next, members, shape)
    }

    /** ... and the cached first bucket is the first bucket that holds something. */
    ghost predicate FirstOk()
      reads this`shape, this`indexOfFirstNonNull
    {
      FirstExact(shape, indexOfFirstNonNull)
    }

    ghost predicate Valid()
      reads this
    {
      && TableOk()
      && FirstOk()
      && numElements == |Nodes(shape)|
      && LoadBound(numElements, numBuckets)
      && Nodes(shape) <= values.Keys
    }

    /** The finite map that the table stands for. */
    ghost function Model(): map<Key, Value>
      requires Valid()
      reads this
    {
      ValuesOf(ops, shape, values)
    }

    constructor (n: nat, ops: KeyOps, nil: Value)
      requires StrictTotalOrder(ops)
      requires n < MIN_TABLE_SIZE || PowerOfTwo(n)
      ensures Valid() && this.ops == ops && this.nil == nil
      ensures numBuckets == (if n < MIN_TABLE_SIZE then MIN_TABLE_SIZE else n)
      ensures Nodes(shape) == {} && Model() == map[]
    {
      this.ops, this.nil := ops, nil;
      var size := if n < MIN_TABLE_SIZE then MIN_TABLE_SIZE else n;
      table, next, members, values := seq(size, _ => Null), map[], map[], map[];
      numBuckets, indexOfFirstNonNull, numElements := size, size, 0;
      shape := Empty(size);
      new;
      SmallPowers(size);
      EmptyOk(ops, size);
      EmptyRealises(size, next, members);
    }

    // -------------------------------------------------------------- lookup

    /** `FindHelper`: the node with key `k`, if any, and the bucket where it is or would go. */
    method FindHelper(k: Key) returns (it: Iterator, b: nat)
      requires TableOk()
      ensures RightBucket(ops, shape, b, k)
      ensures it.node == null <==> k !in AllKeys(shape)
      ensures it.node != null ==> it.node in Nodes(shape) && it.node in shape[b].nodes && it.node.key == k
      ensures it.node != null ==> it.bucketIndex == b && Aligned(shape, b)
    {
      hide ShapeOk, Nodes, AllKeys, Realises, Home;
      SizeOfShape(ops, shape);
      b := Home(ops, numBuckets, k);
      EntryKinds(ops, table, next, members, shape, b);
      OnlyAtHome(ops, shape, b, k);
      ghost var ns := shape[b].nodes;
      if EntryIsNonEmptyList(table, b) {
        var node: Node? := table[b].node;
        ghost var i := 0;
        while node != null
          invariant 0 <= i <= |ns| && node == NodeAt(ns, i)
          invariant forall j :: 0 <= j < i ==> ns[j].key != k
          decreases |ns| - i
        {
          if node.key == k {
            assert ns[i] in ns;
            return Iterator(node, b), b;
          }
          node, i := next[node], i + 1;
        }
      } else if EntryIsTree(table, b) {
        EntryKinds(ops, table, next, members, shape, EvenOf(b));
        b := EvenOf(b);
        var node := TreeFind(members[table[b].tree], k);
        if node != null {
          return Iterator(node, b), b;
        }
      }
      return Iterator(null, 0), b;
    }

    /** `std::set::find` */
    static method TreeFind(ns: seq<Node>, k: Key) returns (n: Node?)
      ensures n != null ==> n in ns && n.key == k
      ensures n == null ==> forall i :: 0 <= i < |ns| ==> ns[i].key != k
    {
      for i := 0 to |ns|
        invariant forall j :: 0 <= j < i ==> ns[j].key != k
      {
        if ns[i].key == k { return ns[i]; }
      }
      n := null;
    }

    /** `find`: the node that holds `k`, exactly when the map has `k`. */
    method Find(k: Key) returns (it: Iterator)
      requires Valid()
      ensures it.node != null <==> k in Model()
      ensures it.node != null ==> it.node in Nodes(shape) && it.node.key == k && values[it.node] == Model()[k]
    {
      var b;
      it, b := FindHelper(k);
      if it.node != null { NodeOfIs(ops, shape, it.node); }
    }

    /** Writing through the reference that `operator[]` and iterators hand out. */
    method SetValue(node: Node, v: Value)
      requires Valid() && node in Nodes(shape)
      modifies this`values
      ensures Valid() && node.key in old(Model()) && Model() == old(Model())[node.key := v]
      ensures Nodes(shape) == old(Nodes(shape))
    {
      ValuesWithOneChanged(ops, shape, values, node, v);
      values := values[node := v];
    }

    // -------------------------------------------------------------- insertion

    method InsertUniqueInList(b: nat, node: Node) returns (it: Iterator)
      requires TableOk() && b == Home(ops, |shape|, node.key) && node.key !in AllKeys(shape)
      requires shape[b].Chain? && |shape[b].nodes| < MAX_CHAIN
      modifies this`shape, this`next, this`table
      ensures TableOk() && shape == old(shape)[b := Chain([node] + old(shape)[b].nodes)]
      ensures NextKept(old(next), next, old(Nodes(shape)) + {node})
      ensures it == Iterator(node, b)
    {
      PushRealises(ops, table, next, members, shape, b, node);
      PushKeepsLayout(ops, shape, b, node);
      PushKept(ops, next, shape, node, HeadOf(table[b]));
      next := next[node := HeadOf(table[b])];
      table := table[b := ListHead(node)];
      shape := shape[b := Chain([node] + shape[b].nodes)];
      it := Iterator(node, b);
    }

    /** Moves the list of bucket `b` into `tree`, unlinking it on the way. */
    method CopyListToTree(b: nat, tree: Tree, ghost ns: seq<Node>) returns (count: nat)
      requires b < |table| && HeadOf(table[b]) == NodeAt(ns, 0) && Linked(next, ns) && tree in members
      requires DistinctKeys(ns)
      modifies this`next, this`members
      ensures members == old(members)[tree := InsertAll(ops, old(members)[tree], ns)]
      ensures next == UnlinkAll(old(next), ns) && count == |ns|
    {
      hide SortedInsert, UnlinkAll, DistinctKeys, Linked;
      UnlinkNothing(next);
      count := 0;
      var node := HeadOf(table[b]);
      while node != null
        invariant 0 <= count <= |ns| && node == NodeAt(ns, count) && tree in members
        invariant next == UnlinkAll(old(next), ns[..count])
        invariant members == old(members)[tree := members[tree]]
        invariant InsertAll(ops, members[tree], ns[count..]) == InsertAll(ops, old(members)[tree], ns)
        decreases |ns| - count
      {
        assert ns[count..][1..] == ns[count + 1..];
        UnlinkStep(old(next), ns, count);
        members := members[tree := SortedInsert(ops, members[tree], node)];
        var following := next[node];
        next := next[node := null];
        node, count := following, count + 1;
      }
      assert ns[..count] == ns && ns[count..] == [];
    }

    /** Moves both lists of the pair of `b` into the empty `tree`. */
    method CopyPairToTree(b: nat, tree: Tree)
      requires TableOk() && b < |shape| && shape[b].Chain? && tree !in members
      modifies this`next, this`members
      ensures Partner(b) < |shape|
      ensures next == UnlinkAll(old(next), PairNodes(shape, b))
      ensures members == old(members)[tree := PairTree(ops, shape, b)]
    {
      ghost var mine, theirs := shape[b].nodes, shape[Partner(b)].nodes;
      ghost var next0, members0 := next, members;
      EntryKinds(ops, table, next, members, shape, b);
      EntryKinds(ops, table, next, members, shape, Partner(b));
      PairListsApart(ops, shape, b);
      StillLinked(next0, mine, theirs);
      members := members[tree := []];
      var count := CopyListToTree(b, tree, mine);
      var more := CopyListToTree(Partner(b), tree, theirs);
      UnlinkTwice(next0, mine, theirs);
      ReplacedMember(members0, tree, [], InsertAll(ops, [], mine), PairTree(ops, shape, b));
    }

    method TreeConvert(b: nat) returns (tree: Tree)
      requires TableOk() && b < |shape| && shape[b].Chain? && shape[b].nodes != []
      modifies this`shape, this`next, this`members, this`table
      ensures TableOk() && fresh(tree)
      ensures shape == SetPair(old(shape), b, Shared(tree, PairTree(ops, old(shape), b)))
      ensures NextKept(old(next), next, old(Nodes(shape))) && MembersKept(old(members), members, old(Trees(shape)))
      ensures tree !in old(members)
    {
      tree := new Tree();
      ConvertRealises(ops, table, next, members, shape, b, tree);
      ConvertKept(ops, next, members, shape, b, tree, PairTree(ops, shape, b));
      CopyPairToTree(b, tree);
      table := table[b := TreeRoot(tree)][Partner(b) := TreeRoot(tree)];
      shape := SetPair(shape, b, Shared(tree, PairTree(ops, shape, b)));
    }

    method InsertUniqueInTree(b: nat, node: Node) returns (it: Iterator)
      requires TableOk() && RightBucket(ops, shape, b, node.key) && node.key !in AllKeys(shape)
      requires shape[b].Shared?
      modifies this`shape, this`next, this`members
      ensures TableOk()
      ensures shape == SetPair(old(shape), b, Shared(old(shape)[b].tree, SortedInsert(ops, old(shape)[b].nodes, node)))
      ensures NextKept(old(next), next, {node}) && MembersKept(old(members), members, {old(shape)[b].tree})
      ensures it == Iterator(node, EvenOf(b))
    {
      EntryKinds(ops, table, next, members, shape, b);
      GrowRealises(ops, table, next, members, shape, b, node);
      PutTreeKeepsLayout(ops, shape, b, node, shape[b].tree);
      var tree := table[b].tree;
      next := next[node := null];
      members := members[tree := SortedInsert(ops, members[tree], node)];
      shape := SetPair(shape, b, Shared(tree, SortedInsert(ops, shape[b].nodes, node)));
      it := Iterator(node, EvenOf(b));
    }

    /** Whether the list at `b` has grown to the limit. */
    method TableEntryIsTooLong(b: nat) returns (long: bool)
      requires TableOk() && b < |shape| && shape[b].Chain? && shape[b].nodes != []
      ensures long <==> |shape[b].nodes| >= MAX_CHAIN
    {
      EntryKinds(ops, table, next, members, shape, b);
      ghost var ns := shape[b].nodes;
      var count := 0;
      var node: Node? := table[b].node;
      while node != null
        invariant 0 <= count <= |ns| && node == NodeAt(ns, count)
        decreases |ns| - count
      {
        node, count := next[node], count + 1;
      }
      long := count >= MAX_CHAIN;
    }

    /** The case of `InsertUnique` where the list at `b` is full and turns into a tree first. */
    method InsertConverting(b: nat, node: Node) returns (it: Iterator, ghost spare: Tree)
      requires TableOk() && b == Home(ops, |shape|, node.key) && node.key !in AllKeys(shape)
      requires shape[b].Chain? && |shape[b].nodes| >= MAX_CHAIN
      modifies this`shape, this`next, this`members, this`table
      ensures TableOk() && it == Iterator(node, EvenOf(b))
      ensures shape == Inserted(ops, old(shape), b, node, spare)
      ensures NextKept(old(next), next, old(Nodes(shape)) + {node})
      ensures MembersKept(old(members), members, old(Trees(shape)))
      ensures spare !in old(members) && spare !in old(Trees(shape))
    {
      ghost var s := shape;
      TreesAreMembers(table, next, members, s);
      var tree := TreeConvert(b);
      ghost var next1, members1 := next, members;
      SetPairTwice(s, b, Shared(tree, PairTree(ops, s, b)), Shared(tree, TreeAfterInsert(ops, s, b, node)));
      ConvertKeepsKeys(ops, s, b, tree);
      it := InsertUniqueInTree(b, node);
      spare := tree;
      NextKeptTwice(old(next), next1, next, Nodes(s), node);
      MembersKeptTwice(old(members), members1, members, Trees(s), tree);
    }

    /** Puts a node with a new key where it belongs; `numElements` is left to the caller. */
    method InsertUnique(b: nat, node: Node) returns (it: Iterator, ghost spare: Tree?)
      requires TableOk() && FirstOk()
      requires RightBucket(ops, shape, b, node.key) && node.key !in AllKeys(shape)
      modifies this`shape, this`next, this`members, this`table, this`indexOfFirstNonNull
      ensures TableOk() && FirstOk() && it.node == node
      ensures old(shape)[b].Chain? && |old(shape)[b].nodes| >= MAX_CHAIN ==> spare != null
      ensures shape == Inserted(ops, old(shape), b, node, spare)
      ensures Nodes(shape) == old(Nodes(shape)) + {node}
      ensures AllKeys(shape) == old(AllKeys(shape)) + {node.key}
      ensures NextKept(old(next), next, old(Nodes(shape)) + {node})
      ensures MembersKept(old(members), members, old(Trees(shape)))
      ensures spare !in old(members) && Trees(shape) <= old(Trees(shape)) + {spare}
    {
      ghost var s, first := shape, indexOfFirstNonNull;
      EntryKinds(ops, table, next, members, s, b);
      spare := null;
      TreesAreMembers(table, next, members, s);
      if table[b] == Null {
        InsertKeepsLayout(ops, s, b, node, null);
        InsertKeepsFirst(ops, s, first, b, node, null);
        TreesAfterInsert(ops, s, b, node, null);
        it := InsertUniqueInList(b, node);
      } else if EntryIsNonEmptyList(table, b) {
        var long := TableEntryIsTooLong(b);
        if long {
          it, spare := InsertConverting(b, node);
          InsertKeepsLayout(ops, s, b, node, spare);
          InsertKeepsFirst(ops, s, first, b, node, spare);
          TreesAfterInsert(ops, s, b, node, spare);
        } else {
          InsertKeepsLayout(ops, s, b, node, null);
          InsertKeepsFirst(ops, s, first, b, node, null);
          TreesAfterInsert(ops, s, b, node, null);
          it := InsertUniqueInList(b, node);
          return;
        }
      } else {
        InsertKeepsLayout(ops, s, b, node, null);
        InsertKeepsFirst(ops, s, first, b, node, null);
        TreesAfterInsert(ops, s, b, node, null);
        it := InsertUniqueInTree(b, node);
        return;
      }
      indexOfFirstNonNull := if it.bucketIndex < indexOfFirstNonNull then it.bucketIndex else indexOfFirstNonNull;
    }

    // -------------------------------------------------------------- resizing

    /** Everything `Resize` relies on while the nodes in `pending` are still in the old table `os`. */
    ghost predicate Moving(os: Shape, i: nat, pending: seq<Node>, before: set<Tree>)
      reads this
    {
      && TableOk() && FirstOk()
      && Pending(next, members, os, i) && KeysWithin(os, i, Keys(pending))
      && DistinctKeys(pending) && AllKeys(shape) !! Keys(pending)
      && Trees(os) <= before <= members.Keys && Trees(shape) !! before
    }

    /** Moves the first pending node; the rest of its list, `tail`, stays linked. */
    method TransferNode(node: Node, ghost os: Shape, ghost i: nat, ghost pending: seq<Node>,
                        ghost before: set<Tree>, ghost tail: seq<Node>)
      requires pending != [] && pending[0] == node && Moving(os, i, pending, before)
      requires KeysWithin(os, i, Keys(pending[1..]))
      requires Linked(next, tail) && Keys(tail) <= Keys(pending[1..])
      modifies this`shape, this`next, this`members, this`table, this`indexOfFirstNonNull
      ensures Moving(os, i, pending[1..], before) && Linked(next, tail)
      ensures Nodes(shape) == old(Nodes(shape)) + {node}
      ensures AllKeys(shape) == old(AllKeys(shape)) + {node.key}
      ensures MembersKept(old(members), members, old(Trees(shape)))
    {
      hide ShapeOk, Realises, FirstExact, Nodes, AllKeys, Pending, KeysWithin, NextKept, MembersKept, Linked, Inserted;
      hide DistinctKeys, RightBucket;
      ghost var keys, touched := Keys(pending[1..]), Nodes(shape) + {node};
      MovingNext(os, i, pending, before);
      ghost var next0, members0, trees0 := next, members, Trees(shape);
      ghost var it, spare := InsertUnique(Home(ops, numBuckets, node.key), node);
      PendingKept(next0, next, members0, members, os, i, touched, trees0, keys);
      LinkedKept(next0, next, tail, touched, keys);
    }

    /** The node that is moved next is not in the new table yet, and shares its key with no other. */
    lemma MovingNext(os: Shape, i: nat, pending: seq<Node>, before: set<Tree>)
      requires pending != [] && Moving(os, i, pending, before)
      ensures numBuckets > 0 && RightBucket(ops, shape, Home(ops, numBuckets, pending[0].key), pending[0].key)
      ensures Keys(pending) == Keys(pending[1..]) + {pending[0].key} && DistinctKeys(pending[1..])
      ensures pending[0].key !in Keys(pending[1..])
      ensures forall n :: n in Nodes(shape) + {pending[0]} ==> n.key !in Keys(pending[1..])
    {
      hide Realises, FirstExact, Pending, KeysWithin, Trees, Keys, Nodes, AllKeys;
      FirstKeyApart(pending);
      NodeKeysIn(shape);
    }

    /** `TransferList`: `ns` is the old list in `table[index]`, `rest` what comes after it. */
    method TransferList(oldTable: seq<Ptr>, index: nat, ghost os: Shape, ghost ns: seq<Node>,
                        ghost rest: seq<Node>, ghost before: set<Tree>)
      requires index < |oldTable| && ns != [] && oldTable[index] == ListHead(ns[0])
      requires Moving(os, index + 1, ns + rest, before) && KeysWithin(os, index + 1, Keys(rest))
      requires Linked(next, ns)
      modifies this`shape, this`next, this`members, this`table, this`indexOfFirstNonNull
      ensures Moving(os, index + 1, rest, before)
      ensures Nodes(shape) == old(Nodes(shape)) + Elems(ns)
      ensures AllKeys(shape) == old(AllKeys(shape)) + Keys(ns)
    {
      hide Moving, ShapeOk, FirstExact, Realises, Nodes, AllKeys, KeysWithin, Linked, Keys, Elems;
      var node: Node? := oldTable[index].node;
      ghost var j := 0;
      assert ns[j..] == ns && ns[..j] == [];
      NoneIn([]);
      while node != null
        invariant 0 <= j <= |ns| && node == NodeAt(ns, j)
        invariant Moving(os, index + 1, ns[j..] + rest, before) && Linked(next, ns[j..])
        invariant Nodes(shape) == old(Nodes(shape)) + Elems(ns[..j])
        invariant AllKeys(shape) == old(AllKeys(shape)) + Keys(ns[..j])
        decreases |ns| - j
      {
        KeysOfTail(ns, j, rest);
        LinkedTail(next, ns, j);
        KeysWithinMore(os, index + 1, Keys(rest), Keys(ns[j + 1..] + rest));
        var following := next[node];
        TransferNode(node, os, index + 1, ns[j..] + rest, before, ns[j + 1..]);
        assert ns[..j + 1] == ns[..j] + [ns[j]];
        KeysConcat(ns[..j], [ns[j]]);
        node, j := following, j + 1;
      }
      assert ns[..j] == ns && ns[j..] + rest == rest;
    }

    /** `TransferTree`: goes through the old tree in key order. */
    method TransferTree(oldTable: seq<Ptr>, index: nat, ghost os: Shape, ghost ns: seq<Node>,
                        ghost rest: seq<Node>, ghost before: set<Tree>)
      requires index < |oldTable| && oldTable[index].TreeRoot? && oldTable[index].tree in before
      requires Moving(os, index + 2, ns + rest, before) && KeysWithin(os, index + 2, Keys(rest))
      requires oldTable[index].tree in members && members[oldTable[index].tree] == ns
      modifies this`shape, this`next, this`members, this`table, this`indexOfFirstNonNull
      ensures Moving(os, index + 2, rest, before)
      ensures Nodes(shape) == old(Nodes(shape)) + Elems(ns)
      ensures AllKeys(shape) == old(AllKeys(shape)) + Keys(ns)
    {
      hide ShapeOk, FirstExact, Realises, Nodes, AllKeys, Pending, KeysWithin, Trees;
      var tree := oldTable[index].tree;
      var j := 0;
      assert ns[j..] == ns && ns[..j] == [];
      while tree in members && j < |members[tree]|
        invariant 0 <= j <= |ns| && tree in members && members[tree] == ns
        invariant Moving(os, index + 2, ns[j..] + rest, before)
        invariant Nodes(shape) == old(Nodes(shape)) + Elems(ns[..j])
        invariant AllKeys(shape) == old(AllKeys(shape)) + Keys(ns[..j])
        decreases |ns| - j
      {
        KeysOfTail(ns, j, rest);
        KeysWithinMore(os, index + 2, Keys(rest), Keys(ns[j + 1..] + rest));
        TransferNode(members[tree][j], os, index + 2, ns[j..] + rest, before, []);
        assert ns[..j + 1] == ns[..j] + [ns[j]];
        KeysConcat(ns[..j], [ns[j]]);
        j := j + 1;
      }
      assert ns[..j] == ns && ns[j..] + rest == rest;
    }

    /** One round of the loop of `Resize`; `i` is the old bucket to look at next. */
    method TransferBucket(oldTable: seq<Ptr>, index: nat, ghost os: Shape, ghost before: set<Tree>) returns (i: nat)
      requires ShapeOk(ops, os) && |oldTable| == |os| && index < |os| && Aligned(os, index)
      requires Partner(index) < |os| && EntryKindOk(oldTable, os, index)
      requires Moving(os, index, OrderFrom(os, index), before)
      modifies this`shape, this`next, this`members, this`table, this`indexOfFirstNonNull
      ensures index < i <= |os| && Aligned(os, i) && Moving(os, i, OrderFrom(os, i), before)
      ensures Elems(OrderFrom(os, index)) == Elems(os[index].nodes) + Elems(OrderFrom(os, i))
      ensures Keys(OrderFrom(os, index)) == Keys(os[index].nodes) + Keys(OrderFrom(os, i))
      ensures Nodes(shape) == old(Nodes(shape)) + Elems(os[index].nodes)
      ensures AllKeys(shape) == old(AllKeys(shape)) + Keys(os[index].nodes)
    {
      assert |os| % 2 == 0;
      EntryKind(oldTable, os, index);
      hide *;
      i := index;
      ghost var after := OrderParts(ops, os, i);
      ghost var ns, rest := os[i].nodes, OrderFrom(os, after);
      MovingOn(os, i, after, ns, rest, before);
      if EntryIsNonEmptyList(oldTable, i) {
        TransferList(oldTable, i, os, ns, rest, before);
      } else if EntryIsTree(oldTable, i) {
        TransferTree(oldTable, i, os, ns, rest, before);
        i := i + 1;
      } else {
        assert ns + rest == rest;
        NoneIn(ns);
      }
      i := i + 1;
    }

    /** A bucket is about to be emptied; what is in it stays pending. */
    lemma MovingOn(os: Shape, i: nat, after: nat, ns: seq<Node>, rest: seq<Node>, before: set<Tree>)
      requires Moving(os, i, ns + rest, before) && KeysWithin(os, after, Keys(rest)) && i <= after
      ensures Moving(os, after, ns + rest, before)
      ensures i < |os| && os[i].Chain? ==> Linked(next, os[i].nodes)
      ensures i < |os| && os[i].Shared? ==>
                os[i].tree in before && os[i].tree in members && members[os[i].tree] == os[i].nodes
    {
      hide ShapeOk, FirstExact, Realises, Nodes, AllKeys, Pending, KeysWithin;
      PendingLater(next, members, os, i, after);
      KeysConcat(ns, rest);
      KeysWithinMore(os, after, Keys(rest), Keys(ns + rest));
    }

    static lemma NoneIn(ns: seq<Node>)
      ensures ns == [] ==> Keys(ns) == {} && Elems(ns) == {}
    {
    }

    /** The loop of `Resize`: empties the old table from its first non-empty bucket on. */
    method TransferAll(oldTable: seq<Ptr>, start: nat, ghost os: Shape, ghost before: set<Tree>)
      requires ShapeOk(ops, os) && |oldTable| == |os| && start <= |os| && Aligned(os, start)
      requires forall b :: 0 <= b < |os| ==> Partner(b) < |os| && EntryKindOk(oldTable, os, b)
      requires Moving(os, start, OrderFrom(os, start), before)
      modifies this`shape, this`next, this`members, this`table, this`indexOfFirstNonNull
      ensures TableOk() && FirstOk()
      ensures Nodes(shape) == old(Nodes(shape)) + Elems(OrderFrom(os, start))
      ensures AllKeys(shape) == old(AllKeys(shape)) + Keys(OrderFrom(os, start))
    {
      var i := start;
      while i < |oldTable|
        invariant i <= |os| && Aligned(os, i)
        invariant Moving(os, i, OrderFrom(os, i), before)
        invariant Nodes(shape) + Elems(OrderFrom(os, i)) == old(Nodes(shape)) + Elems(OrderFrom(os, start))
        invariant AllKeys(shape) + Keys(OrderFrom(os, i)) == old(AllKeys(shape)) + Keys(OrderFrom(os, start))
      {
        assert EntryKindOk(oldTable, os, i);
        i := TransferBucket(oldTable, i, os, before);
      }
    }

    /** `Resize`: every node moves to its bucket in the new table; none is lost or doubled. */
    method Resize(newNumBuckets: nat)
      requires TableOk() && FirstOk() && SizeOk(newNumBuckets)
      modifies this`shape, this`next, this`members, this`table, this`indexOfFirstNonNull, this`numBuckets
      ensures TableOk() && FirstOk() && numBuckets == newNumBuckets
      ensures Nodes(shape) == old(Nodes(shape)) && AllKeys(shape) == old(AllKeys(shape))
    {
      ghost var os, before := shape, members.Keys;
      var oldTable := table;
      EntryKindsAll(ops, table, next, members, os);
      var start := indexOfFirstNonNull;
      FirstAligned(ops, os, start);
      PendingLater(next, members, os, 0, start);
      numBuckets, table := newNumBuckets, seq(newNumBuckets, _ => Null);
      indexOfFirstNonNull := newNumBuckets;
      shape := Empty(newNumBuckets);
      EmptyOk(ops, newNumBuckets);
      EmptyRealises(newNumBuckets, next, members);
      TransferAll(oldTable, start, os, before);
    }

    /** Grows a table that is getting full, shrinks one that is nearly empty. */
    method ResizeIfLoadIsOutOfRange(newSize: nat) returns (resized: bool)
      requires TableOk() && FirstOk() && newSize > 0 && LoadBound(newSize - 1, numBuckets)
      modifies this`shape, this`next, this`members, this`table, this`indexOfFirstNonNull, this`numBuckets
      ensures TableOk() && FirstOk() && LoadBound(newSize, numBuckets)
      ensures Nodes(shape) == old(Nodes(shape)) && AllKeys(shape) == old(AllKeys(shape))
      ensures !resized ==> shape == old(shape)
      ensures ResizesTo(newSize, old(numBuckets), numBuckets)
      ensures old(numBuckets) < MAX_BUCKETS ==>
                (newSize < HiCutoff(numBuckets)
                 <==> || newSize > HiCutoff(old(numBuckets)) / 4 || old(numBuckets) == MIN_TABLE_SIZE || newSize < 6
                      || exists j: nat :: newSize < Shl(6, j) <= Hypothetical(newSize))
    {
      ghost var size := numBuckets;
      var hiCutoff := HiCutoff(numBuckets);
      var loCutoff := hiCutoff / 4;
      assert SizeOk(numBuckets);
      SmallPowers(numBuckets);
      resized := false;
      if newSize >= hiCutoff {
        if numBuckets < MAX_BUCKETS { PowersApart(numBuckets, 60); }
        if numBuckets <= MAX_BUCKETS / 2 {
          Resize(numBuckets * 2);
          resized := true;
        }
      } else if newSize <= loCutoff && numBuckets > MIN_TABLE_SIZE {
        var newNumBuckets := SmallerSize(newSize, numBuckets);
        ShrinkKeepsLoad(newSize, numBuckets, newNumBuckets);
        if newNumBuckets != numBuckets {
          Resize(newNumBuckets);
          resized := true;
        }
      }
      if size < MAX_BUCKETS { RoomAfterResize(newSize, size, numBuckets); }
    }

    /** The search for a smaller size: how far the estimate may be shifted before it reaches the cutoff. */
    static method SmallerSize(newSize: nat, size: nat) returns (newNumBuckets: nat)
      requires SizeOk(size) && size > MIN_TABLE_SIZE && newSize <= HiCutoff(size) / 4
      ensures ShrinksTo(Hypothetical(newSize), size, newNumBuckets)
    {
      var hiCutoff := HiCutoff(size);
      var lg2OfSizeReductionFactor := 1;
      var hypotheticalSize := Hypothetical(newSize);
      while Shl(hypotheticalSize, lg2OfSizeReductionFactor) < hiCutoff
        invariant lg2OfSizeReductionFactor >= 1
        invariant lg2OfSizeReductionFactor > 1 ==> Shl(hypotheticalSize, lg2OfSizeReductionFactor - 1) < hiCutoff
        decreases hiCutoff - Shl(hypotheticalSize, lg2OfSizeReductionFactor)
      {
        lg2OfSizeReductionFactor := lg2OfSizeReductionFactor + 1;
      }
      ShrinkRule(hypotheticalSize, size, lg2OfSizeReductionFactor);
      newNumBuckets := ShrunkSize(size, lg2OfSizeReductionFactor);
    }

    /** The second case of `insert`: the key is new; `bucket` is where it goes unless the table is resized. */
    method InsertNew(k: Key, v: Value, bucket: nat) returns (it: Iterator)
      requires Valid() && k !in AllKeys(shape) && RightBucket(ops, shape, bucket, k)
      modifies this
      ensures Valid() && it.node != null && fresh(it.node) && it.node.key == k
      ensures Nodes(shape) == old(Nodes(shape)) + {it.node} && Model() == old(Model())[k := v]
    {
      hide ShapeOk, FirstExact, Realises, Nodes, AllKeys, RightBucket, ValuesOf, NextKept, MembersKept, Inserted,
           LoadBound, Trees, ResizesTo, HiCutoff, Hypothetical, Shl;
      ghost var s := shape;
      var b := bucket;
      var resized := ResizeIfLoadIsOutOfRange(numElements + 1);
      if resized {
        ghost var p;
        p, b := FindHelper(k);
      }
      var node := new Node(k);
      NodeKeysIn(shape);
      ghost var spare;
      it, spare := InsertUnique(b, node);
      ValuesWithOneMore(ops, s, shape, values, node, v);
      values := values[node := v];
      numElements := numElements + 1;
      assert Nodes(shape) == old(Nodes(shape)) + {node};
      assert numElements == |Nodes(shape)|;
      assert Nodes(shape) <= values.Keys;
    }

    /** `insert`: adds the pair unless the key is there already. */
    method Insert(k: Key, v: Value) returns (it: Iterator, inserted: bool)
      requires Valid()
      modifies this
      ensures Valid()
      ensures inserted <==> k !in old(Model())
      ensures Model() == if inserted then old(Model())[k := v] else old(Model())
      ensures it.node != null && it.node in Nodes(shape) && it.node.key == k
      ensures Nodes(shape) == old(Nodes(shape)) + {it.node} && (inserted ==> fresh(it.node))
    {
      hide ShapeOk, FirstExact, Realises, Nodes, AllKeys, RightBucket;
      var b;
      it, b := FindHelper(k);
      inserted := it.node == null;
      if inserted { it := InsertNew(k, v, b); }
    }

    /** `operator[]`: the node of `k`, added with a null value if there was none. */
    method Index(k: Key) returns (node: Node)
      requires Valid()
      modifies this
      ensures Valid() && node in Nodes(shape) && node.key == k
      ensures Model() == if k in old(Model()) then old(Model()) else old(Model())[k := nil]
      ensures node in values && k in Model() && values[node] == Model()[k]
      ensures Nodes(shape) == old(Nodes(shape)) + {node} && (k !in old(Model()) ==> fresh(node))
    {
      hide ShapeOk, FirstExact, Realises, Nodes, AllKeys;
      ghost var inserted;
      var it: Iterator;
      it, inserted := Insert(k, nil);
      node := it.node;
      NodeOfIs(ops, shape, node);
    }

    // -------------------------------------------------------------- iteration

    /** `SearchFrom`: the first node at or behind a bucket. */
    method SearchFrom(startBucket: nat) returns (it: Iterator)
      requires TableOk() && startBucket <= |shape| && Aligned(shape, startBucket)
      ensures it.node == NodeAt(OrderFrom(shape, startBucket), 0)
    {
      var b := startBucket;
      while b < numBuckets
        invariant b <= |shape| && Aligned(shape, b)
        invariant OrderFrom(shape, b) == OrderFrom(shape, startBucket)
      {
        EntryKinds(ops, table, next, members, shape, b);
        NextAligned(ops, shape, b);
        if EntryIsNonEmptyList(table, b) {
          return Iterator(table[b].node, b);
        } else if EntryIsTree(table, b) {
          TreesNonEmpty(ops, shape, b);
          return Iterator(members[table[b].tree][0], b);
        }
        b := b + 1;
      }
      it := Iterator(null, b);
    }

    /** `begin` */
    method Begin() returns (it: Iterator)
      requires TableOk() && FirstOk()
      ensures it.node == NodeAt(Order(shape), 0)
    {
      FirstAligned(ops, shape, indexOfFirstNonNull);
      it := SearchFrom(indexOfFirstNonNull);
    }

    /**
     `revalidate_if_necessary`: finds the bucket of a live node, however stale the index the
     iterator carries, and tells whether that bucket is a list.
     */
    method Revalidate(it: Iterator) returns (isList: bool, b: nat)
      requires TableOk() && it.node != null && it.node in Nodes(shape)
      ensures b < |shape| && Aligned(shape, b) && it.node in shape[b].nodes
      ensures isList <==> shape[b].Chain?
    {
      b := it.bucketIndex % numBuckets;
      EntryKinds(ops, table, next, members, shape, b);
      if table[b] == ListHead(it.node) { return true, b; }
      if EntryIsNonEmptyList(table, b) {
        var found := ListHas(table[b].node, it.node, shape[b].nodes);
        if found { return true, b; }
      }
      var i: Iterator;
      i, b := FindHelper(it.node.key);
      NodeOfIs(ops, shape, it.node);
      NodeOfIs(ops, shape, i.node);
      EntryKinds(ops, table, next, members, shape, b);
      isList := !EntryIsTree(table, b);
    }

    /** The scan of `revalidate_if_necessary`: is `item` in the list, behind its head? */
    method ListHas(head: Node, item: Node, ghost ns: seq<Node>) returns (found: bool)
      requires ns != [] && head == ns[0] && Linked(next, ns)
      ensures found <==> item in ns[1..]
    {
      var l := next[head];
      ghost var i := 1;
      while l != null
        invariant 1 <= i <= |ns| && l == NodeAt(ns, i)
        invariant item !in ns[1..i]
        decreases |ns| - i
      {
        if l == item {
          assert ns[1..][i - 1] == item;
          return true;
        }
        assert ns[1..i + 1] == ns[1..i] + [ns[i]];
        l, i := next[l], i + 1;
      }
      assert ns[1..i] == ns[1..];
      found := false;
    }

    /** `operator++`: on to the node that comes next in the iteration order. */
    method Advance(it: Iterator) returns (r: Iterator)
      requires TableOk() && it.node != null && it.node in Nodes(shape)
      ensures Follows(shape, it.node, r.node)
    {
      hide ShapeOk, FirstExact, Realises, Nodes, AllKeys, Follows;
      ghost var c, i := Locate(shape, it.node);
      LiveLink(ops, table, next, members, shape, c, i);
      if next[it.node] == null {
        var isList, b := Revalidate(it);
        ghost var j := Position(shape[b].nodes, it.node);
        EntryKinds(ops, table, next, members, shape, b);
        LiveLink(ops, table, next, members, shape, b, j);
        FollowsInside(ops, shape, b, j);
        NextAligned(ops, shape, b);
        if isList {
          r := SearchFrom(b + 1);
        } else {
          var tree := members[table[b].tree];
          var after := TreeNext(tree, it.node);
          SortedTree(ops, shape, b);
          if after == |tree| {
            r := SearchFrom(b + 2);
          } else {
            r := Iterator(tree[after], b);
          }
        }
      } else {
        FollowsInside(ops, shape, c, i);
        r := Iterator(next[it.node], it.bucketIndex);
      }
    }

    /** `++tree_it`, as an index into the tree. */
    static method TreeNext(ns: seq<Node>, n: Node) returns (after: nat)
      requires n in ns
      ensures 0 < after <= |ns| && ns[after - 1] == n
    {
      after := 0;
      while after < |ns| && ns[after] != n
        invariant after <= |ns| && n !in ns[..after]
      {
        after := after + 1;
      }
      assert ns[..|ns|] == ns;
      after := after + 1;
    }

    /** `for (it = begin(); it != end(); ++it)` over a map that nobody changes meanwhile. */
    method Walk() returns (visited: seq<Node>)
      requires TableOk() && FirstOk()
      ensures visited == Order(shape)
      ensures Elems(visited) == Nodes(shape) && DistinctKeys(visited)
    {
      hide ShapeOk, FirstExact, Realises, Nodes, AllKeys;
      visited := [];
      OrderVisitsEachOnce(ops, shape);
      ghost var o := Order(shape);
      var it := Begin();
      while it.node != null
        invariant |visited| <= |o| && visited == o[..|visited|] && it.node == NodeAt(o, |visited|)
        decreases |o| - |visited|
      {
        ghost var n := |visited|;
        visited := visited + [it.node];
        assert it.node in Elems(o);
        it := Advance(it);
        FollowsAt(ops, shape, n, it.node);
      }
    }

    // -------------------------------------------------------------- erasure

    /** `EraseFromLinkedList`: unlinks `item`, rewriting the pointers on the way to it. */
    method EraseFromLinkedList(item: Node, head: Node, ghost ns: seq<Node>) returns (h: Node?)
      requires ns != [] && head == ns[0] && Linked(next, ns) && item in ns && DistinctKeys(ns)
      modifies this`next
      ensures Linked(next, Without(ns, item)) && h == NodeAt(Without(ns, item), 0)
      ensures NextKept(old(next), next, Elems(ns))
      decreases |ns|
    {
      if head == item {
        h := next[head];
        LinkedDrop(next, ns);
      } else {
        ghost var next0, tail := next, ns[1..];
        LinkedDrop(next, ns);
        FirstKeyApart(ns);
        assert item in tail;
        var rest := EraseFromLinkedList(item, next[head], tail);
        ghost var next1 := next;
        next := next[head := rest];
        Relinked(next0, next1, ns, Without(tail, item), item);
        h := head;
      }
    }

    /** Takes a node out of the bucket it is in; the rest of `erase` is bookkeeping. */
    method EraseFromBucket(b: nat, isList: bool, item: Node) returns (bucket: nat)
      requires TableOk() && b < |shape| && Aligned(shape, b) && item in shape[b].nodes
      requires isList <==> shape[b].Chain?
      modifies this`shape, this`next, this`members, this`table
      ensures TableOk() && shape == Removed(old(shape), b, item)
      ensures bucket == b
    {
      hide ShapeOk, Realises, Nodes, AllKeys;
      ghost var s := shape;
      bucket := b;
      EntryKinds(ops, table, next, members, s, b);
      RemoveKeepsLayout(ops, s, b, item);
      if isList {
        SortedTree(ops, s, b);
        ghost var next0 := next;
        var head := EraseFromLinkedList(item, table[b].node, s[b].nodes);
        EraseListRealises(ops, table, next0, next, members, s, b, item);
        table := table[b := if head == null then Null else ListHead(head)];
      } else {
        EraseTreeRealises(ops, table, next, members, s, b, item);
        var tree := table[b].tree;
        members := members[tree := Without(members[tree], item)];
        if members[tree] == [] {
          bucket := EvenOf(b);
          table := table[bucket := Null][bucket + 1 := Null];
        }
      }
      shape := Removed(s, b, item);
    }

    /** Moves the cached first bucket forward to the first one that holds something. */
    method AdvanceFirst()
      requires TableOk() && indexOfFirstNonNull <= |shape|
      requires forall c :: 0 <= c < indexOfFirstNonNull ==> shape[c] == Chain([])
      modifies this`indexOfFirstNonNull
      ensures FirstOk()
    {
      var i := indexOfFirstNonNull;
      while i < numBuckets && table[i] == Null
        invariant i <= |shape|
        invariant forall c :: 0 <= c < i ==> shape[c] == Chain([])
      {
        EntryKinds(ops, table, next, members, shape, i);
        i := i + 1;
      }
      if i < numBuckets { EntryKinds(ops, table, next, members, shape, i); }
      indexOfFirstNonNull := i;
    }

    /** `erase`: removes the element the iterator points to, wherever a resize has put it. */
    method Erase(it: Iterator)
      requires Valid() && it.node != null && it.node in Nodes(shape)
      modifies this
      ensures Valid() && numBuckets == old(numBuckets)
      ensures Model() == old(Model()) - {it.node.key}
      ensures Nodes(shape) == old(Nodes(shape)) - {it.node}
      ensures Order(shape) == Without(old(Order(shape)), it.node)
    {
      hide ShapeOk, Realises, Nodes, AllKeys, FirstExact, Order, Removed, ValuesOf;
      ghost var s := shape;
      var isList, b := Revalidate(it);
      RemoveKeepsLayout(ops, s, b, it.node);
      OrderAfterErase(ops, s, b, it.node);
      RemoveKeepsFirst(ops, s, indexOfFirstNonNull, b, it.node);
      b := EraseFromBucket(b, isList, it.node);
      numElements := numElements - 1;
      if b == indexOfFirstNonNull { AdvanceFirst(); }
      ValuesWithOneLess(ops, s, shape, values, it.node);
    }

    // -------------------------------------------------------------- clearing

    /** The loop of `clear`: drops every list and every tree, bucket by bucket. */
    method DropAll()
      requires TableOk()
      modifies this`table
      ensures table == seq(numBuckets, _ => Null)
    {
      hide ShapeOk, Realises, Nodes, Trees, Pending;
      ghost var s, was := shape, table;
      EntryKindsAll(ops, table, next, members, s);
      SizeOfShape(ops, s);
      var b := 0;
      while b < numBuckets
        invariant b <= |s| && Aligned(s, b) && |table| == |s| == numBuckets && numBuckets == old(numBuckets)
        invariant forall c :: 0 <= c < b ==> table[c] == Null
        invariant forall c :: b <= c < |s| ==> table[c] == was[c]
      {
        assert EntryKindOk(was, s, b);
        NextAligned(ops, s, b);
        SameKindWhileClearing(ops, s, was, table, b);
        if EntryIsNonEmptyList(table, b) {
          table := table[b := Null];
        } else if EntryIsTree(table, b) {
          PairInRange(ops, s, b);
          table := table[b := Null][b + 1 := Null];
          b := b + 1;
        }
        b := b + 1;
      }
    }

    /** `clear` */
    method Clear()
      requires Valid()
      modifies this
      ensures Valid() && Model() == map[] && Nodes(shape) == {} && numBuckets == old(numBuckets)
    {
      SizeOfShape(ops, shape);
      DropAll();
      numElements := 0;
      indexOfFirstNonNull := numBuckets;
      shape := Empty(numBuckets);
      EmptyOk(ops, numBuckets);
      EmptyRealises(numBuckets, next, members);
      EmptyValues(ops, numBuckets, values);
    }

    // -------------------------------------------------------------- Map::erase and Map::clear

    /** `Map::erase(iterator)`: steps past the element before it is erased. */
    method EraseAndStep(it: Iterator) returns (r: Iterator)
      requires Valid() && it.node != null && it.node in Nodes(shape)
      modifies this
      ensures Valid() && Model() == old(Model()) - {it.node.key}
      ensures Nodes(shape) == old(Nodes(shape)) - {it.node}
      ensures Order(shape) == Without(old(Order(shape)), it.node)
      ensures Follows(old(shape), it.node, r.node)
    {
      r := Advance(it);
      Erase(it);
    }

    /** `Map::erase(key)`: how many elements were removed. */
    method EraseKey(k: Key) returns (count: nat)
      requires Valid()
      modifies this
      ensures Valid() && count == (if k in old(Model()) then 1 else 0)
      ensures Model() == old(Model()) - {k}
    {
      hide ShapeOk, Nodes, AllKeys, ValuesOf, FirstExact, Realises;
      var it := Find(k);
      if it.node == null { return 0; }
      Erase(it);
      count := 1;
    }

    /** `Map::clear`: erases while iterating, and still reaches every element. */
    method ClearByErasing()
      requires Valid()
      modifies this
      ensures Valid() && Model() == map[] && Nodes(shape) == {}
    {
      hide ShapeOk, Nodes, AllKeys, ValuesOf, FirstExact, Realises, Order, Follows;
      var it := Begin();
      OrderVisitsEachOnce(ops, shape);
      while it.node != null
        invariant Valid() && it.node == NodeAt(Order(shape), 0)
        invariant Elems(Order(shape)) == Nodes(shape)
        decreases |Order(shape)|
      {
        ghost var s := shape;
        assert Order(s)[0] in Elems(Order(s));
        it := EraseAndStep(it);
        FollowsAt(ops, s, 0, it.node);
        OrderVisitsEachOnce(ops, shape);
      }
      NothingLeft(ops, shape, values);
    }
  }

  // ---------------------------------------------------------------- whole runs

  /** One call a client makes, and what it gets back. */
  datatype Op = DoInsert(k: Key, v: Value) | DoIndex(k: Key) | DoAssign(k: Key, v: Value)
              | DoFind(k: Key) | DoErase(k: Key) | DoClear

  datatype Answer = Added(yes: bool) | Refers(v: Value) | Found(v: Value) | Missing | Erased(count: nat) | Done

  /** What a plain finite map would answer, and become. */
  function Step(m: map<Key, Value>, nil: Value, op: Op): (map<Key, Value>, Answer) {
    match op
    case DoInsert(k, v) => if k in m then (m, Added(false)) else (m[k := v], Added(true))
    case DoIndex(k) => if k in m then (m, Refers(m[k])) else (m[k := nil], Refers(nil))
    case DoAssign(k, v) => (m[k := v], Done)
    case DoFind(k) => (m, if k in m then Found(m[k]) else Missing)
    case DoErase(k) => (m - {k}, Erased(if k in m then 1 else 0))
    case DoClear => (map[], Done)
  }

  function Reference(m: map<Key, Value>, nil: Value, ops: seq<Op>): (map<Key, Value>, seq<Answer>)
    decreases |ops|
  {
    if ops == [] then (m, [])
    else
      var (m', rest) := Reference(m, nil, ops[..|ops| - 1]);
      var (m'', a) := Step(m', nil, ops[|ops| - 1]);
      (m'', rest + [a])
  }

  /** One operation on the table answers as it would on the finite map. */
  method Perform(t: InnerMap, op: Op) returns (a: Answer)
    requires t.Valid()
    modifies t
    ensures t.Valid() && (t.Model(), a) == Step(old(t.Model()), t.nil, op)
  {
    hide ShapeOk, Nodes, AllKeys, ValuesOf, FirstExact, Realises;
    match op
    case DoInsert(k, v) =>
      ghost var it;
      var inserted;
      it, inserted := t.Insert(k, v);
      a := Added(inserted);
    case DoIndex(k) =>
      var node := t.Index(k);
      a := Refers(t.values[node]);
    case DoAssign(k, v) =>
      var node := t.Index(k);
      t.SetValue(node, v);
      assert old(t.Model())[k := t.nil][k := v] == old(t.Model())[k := v];
      a := Done;
    case DoFind(k) =>
      var it := t.Find(k);
      a := if it.node == null then Missing else Found(t.values[it.node]);
    case DoErase(k) =>
      var count := t.EraseKey(k);
      a := Erased(count);
    case DoClear =>
      t.ClearByErasing();
      a := Done;
  }

  /** Any run of operations, with whatever resizes it causes, answers exactly as a plain finite map. */
  method Run(t: InnerMap, ops: seq<Op>) returns (answers: seq<Answer>)
    requires t.Valid()
    modifies t
    ensures t.Valid() && (t.Model(), answers) == Reference(old(t.Model()), t.nil, ops)
  {
    answers := [];
    assert ops[..0] == [];
    for i := 0 to |ops|
      invariant t.Valid() && (t.Model(), answers) == Reference(old(t.Model()), t.nil, ops[..i])
    {
      assert ops[..i + 1][..i] == ops[..i];
      var a := Perform(t, ops[i]);
      answers := answers + [a];
    }
    assert ops[..|ops|] == ops;
  }
}
