/**
 Objects as finite maps: `data[key] = value` keeps the fields in strictly increasing key order,
 so every parsed value is a proper one, and of several members with one key the last wins.
 */
module JsonObjects {
  import opened Bytes
  import opened JsonValue
  import opened JsonGrammar

  ghost predicate Increasing(fields: seq<Field>) {
    forall i, j :: 0 <= i < j < |fields| ==> StringLess(fields[i].key, fields[j].key)
  }

  /** Every object in `v`, at any depth, is a map. */
  ghost predicate Proper(v: Json)
    decreases v, 0
  {
    match v
    case Arr(items) => forall k :: 0 <= k < |items| ==> Proper(items[k])
    case Obj(fields) => Increasing(fields) && ProperFields(fields)
    case _ => true
  }

  ghost predicate ProperFields(fields: seq<Field>)
    decreases fields, 1
  {
    forall k :: 0 <= k < |fields| ==> Proper(fields[k].value)
  }

  /** What an object holds under `key`. */
  function Lookup(fields: seq<Field>, key: bytes): Option<Json> {
    if fields == [] then None
    else if fields[0].key == key then Some(fields[0].value)
    else Lookup(fields[1..], key)
  }

  /** All keys of `fields` come before `key`. */
  ghost predicate AllBefore(fields: seq<Field>, key: bytes) {
    forall i :: 0 <= i < |fields| ==> StringLess(fields[i].key, key)
  }

  /** All keys of `fields` come after `key`. */
  ghost predicate AllAfter(fields: seq<Field>, key: bytes) {
    forall i :: 0 <= i < |fields| ==> StringLess(key, fields[i].key)
  }

  lemma IncreasingTail(fields: seq<Field>)
    requires fields != []
    ensures Increasing(fields) <==> AllAfter(fields[1..], fields[0].key) && Increasing(fields[1..])
  {
  }

  lemma {:induction false} NothingBelow(fields: seq<Field>, key: bytes)
    requires AllAfter(fields, key)
    ensures Lookup(fields, key) == None
  {
    if fields != [] {
      StringTrichotomy(key, fields[0].key);
      NothingBelow(fields[1..], key);
    }
  }

  /** Storing into an object is updating a map. */
  lemma {:induction false} PutUpdates(fields: seq<Field>, key: bytes, value: Json, k: bytes)
    requires Increasing(fields)
    ensures Increasing(Put(fields, key, value))
    ensures Lookup(Put(fields, key, value), k) == if k == key then Some(value) else Lookup(fields, k)
    ensures forall low :: StringLess(low, key) && AllAfter(fields, low) ==> AllAfter(Put(fields, key, value), low)
  {
    if fields != [] {
      var put := Put(fields, key, value);
      IncreasingTail(fields);
      IncreasingTail(put);
      StringTrichotomy(key, fields[0].key);
      if StringLess(key, fields[0].key) {
        assert put[1..] == fields;
        forall i | 0 <= i < |fields| ensures StringLess(key, fields[i].key) {
          if i > 0 { StringTransitive(key, fields[0].key, fields[i].key); }
        }
        NothingBelow(fields, key);
      } else if key == fields[0].key {
        assert put[1..] == fields[1..];
      } else {
        assert put[1..] == Put(fields[1..], key, value);
        PutUpdates(fields[1..], key, value, k);
        forall low | StringLess(low, key) && AllAfter(fields, low) ensures AllAfter(put, low) {
          assert AllAfter(fields[1..], low);
        }
      }
    }
  }

  /** A key behind all others is appended. */
  lemma {:induction false} PutAppends(fields: seq<Field>, key: bytes, value: Json)
    requires AllBefore(fields, key)
    ensures Put(fields, key, value) == fields + [Field(key, value)]
  {
    if fields != [] {
      StringTrichotomy(fields[0].key, key);
      PutAppends(fields[1..], key, value);
    }
  }

  lemma {:induction false} PutProper(fields: seq<Field>, key: bytes, value: Json)
    requires ProperFields(fields) && Proper(value)
    ensures ProperFields(Put(fields, key, value))
  {
    if fields != [] {
      assert ProperFields(fields[1..]);
      PutProper(fields[1..], key, value);
    }
  }

  // ---------------------------------------------------------------- what parsed objects hold

  /** The value of the last member with this key. */
  function LastValue(ms: seq<Member>, key: bytes, strtod: bytes -> Extended): Option<Json> {
    if ms == [] then None
    else
      var later := LastValue(ms[1..], key, strtod);
      if later.Some? then later
      else if StringMeaning(ms[0].key) == key then Some(Meaning(ms[0].elem.value, strtod))
      else None
  }

  /** The last duplicate of a key wins. */
  lemma LastDuplicateWins(ms: seq<Member>, key: bytes, strtod: bytes -> Extended)
    ensures Meaning(CObj([], ms), strtod).Obj?
    ensures Lookup(Meaning(CObj([], ms), strtod).fields, key) == LastValue(ms, key, strtod)
  {
    LastWinsFrom([], ms, key, strtod);
  }

  lemma {:induction false} LastWinsFrom(fields: seq<Field>, ms: seq<Member>, key: bytes, strtod: bytes -> Extended)
    requires Increasing(fields)
    ensures Lookup(MeaningMembers(fields, ms, strtod), key)
         == if LastValue(ms, key, strtod).Some? then LastValue(ms, key, strtod) else Lookup(fields, key)
    decreases |ms|
  {
    hide Meaning, StringMeaning, Put;
    if ms != [] {
      var k, v := StringMeaning(ms[0].key), Meaning(ms[0].elem.value, strtod);
      PutUpdates(fields, k, v, key);
      LastWinsFrom(Put(fields, k, v), ms[1..], key, strtod);
    }
  }

  /** Whatever the parser returns is a proper value: its objects are maps. */
  lemma {:induction false} MeaningIsProper(c: Cst, strtod: bytes -> Extended)
    ensures Proper(Meaning(c, strtod))
    decreases c, 0
  {
    match c
    case CArr(_, items) => ItemsProper(items, strtod);
    case CObj(_, members) => MembersProper([], members, strtod);
    case _ =>
  }

  lemma {:induction false} ItemsProper(items: seq<Elem>, strtod: bytes -> Extended)
    ensures forall k :: 0 <= k < |MeaningItems(items, strtod)| ==> Proper(MeaningItems(items, strtod)[k])
    decreases items, 1
  {
    hide Meaning, Proper;
    if items != [] {
      MeaningIsProper(items[0].value, strtod);
      ItemsProper(items[1..], strtod);
    }
  }

  lemma {:induction false} MembersProper(fields: seq<Field>, ms: seq<Member>, strtod: bytes -> Extended)
    requires Increasing(fields) && ProperFields(fields)
    ensures Increasing(MeaningMembers(fields, ms, strtod)) && ProperFields(MeaningMembers(fields, ms, strtod))
    decreases ms, 1
  {
    hide Meaning, StringMeaning, Put, Proper, ProperFields, Increasing;
    if ms != [] {
      var k, v := StringMeaning(ms[0].key), Meaning(ms[0].elem.value, strtod);
      MeaningIsProper(ms[0].elem.value, strtod);
      PutUpdates(fields, k, v, k);
      PutProper(fields, k, v);
      MembersProper(Put(fields, k, v), ms[1..], strtod);
    }
  }
}
