/**
 Parsing one entry of a protobuf map. The slow way reads an entry and then stores it in the map;
 the fast way reads the value straight into the map and has to take it out again when the entry
 turns out to be unusual. Both do the same.
 */
module MapEntry {
  import opened Bytes

  type Key(==, !new)
  type Value(!new)

  /** The payload of a value field on the wire. */
  type Chunk(!new)

  /**
   A field of the entry: a key or a value (a key that does not parse is `None`), another field that
   can be skipped or not, or the tag at which parsing stops.
   */
  datatype Wire = KeyField(key: Option<Key>) | ValueField(chunk: Chunk) | Unknown(skips: bool) | EndTag

  /**
   What the type handlers do. Reading a value replaces a scalar and is merged into a message; it
   may fail. A new entry and a new map element need not begin with the same value (an enum may have
   a default of its own), but no value can be read that tells them apart.
   */
  datatype Handlers = Handlers(read: (Value, Chunk) -> Option<Value>, noKey: Key, newEntry: Value, newElement: Value)

  ghost predicate Proper(h: Handlers) {
    forall c :: h.read(h.newElement, c) == h.read(h.newEntry, c)
  }

  /**
   The three shortcuts of the input stream. Each may say no although yes were true; which, may
   depend on how much input is left.
   */
  datatype Luck = Luck(expectTag: nat -> bool, expectAtEnd: nat -> bool, buffered: nat -> bool)

  // ---------------------------------------------------------------- the reference

  datatype Entry = Entry(key: Key, value: Value)

  /** Reading fields into an entry: `None` if they are corrupt, or the entry and what is left of the input. */
  function ReadEntry(h: Handlers, e: Entry, fields: seq<Wire>): Option<(Entry, seq<Wire>)>
    decreases |fields|
  {
    if fields == [] then Some((e, []))
    else
      match fields[0]
      case KeyField(None) => None
      case KeyField(Some(k)) => ReadEntry(h, e.(key := k), fields[1..])
      case ValueField(c) =>
        (match h.read(e.value, c)
         case None => None
         case Some(v) => ReadEntry(h, e.(value := v), fields[1..]))
      case Unknown(skips) => if skips then ReadEntry(h, e, fields[1..]) else None
      case EndTag => Some((e, fields[1..]))
  }

  /** The fields up to the tag at which parsing stops, and those behind it. */
  function UpToEnd(fields: seq<Wire>): seq<Wire> {
    if fields == [] || fields[0].EndTag? then [] else [fields[0]] + UpToEnd(fields[1..])
  }

  function BehindEnd(fields: seq<Wire>): seq<Wire> {
    if fields == [] then [] else if fields[0].EndTag? then fields[1..] else BehindEnd(fields[1..])
  }

  predicate Corrupt(field: Wire) {
    field == KeyField(None) || field == Unknown(false)
  }

  /** The last key, if there is one. */
  function LastKey(fields: seq<Wire>, otherwise: Key): Key {
    if fields == [] then otherwise
    else if fields[|fields| - 1].KeyField? && fields[|fields| - 1].key.Some? then fields[|fields| - 1].key.v
    else LastKey(fields[..|fields| - 1], otherwise)
  }

  /** All values, one merged into the other. */
  function Merged(h: Handlers, value: Value, fields: seq<Wire>): Option<Value> {
    if fields == [] then Some(value)
    else if !fields[0].ValueField? then Merged(h, value, fields[1..])
    else
      match h.read(value, fields[0].chunk)
      case None => None
      case Some(v) => Merged(h, v, fields[1..])
  }

  lemma {:induction false} KeyInFront(field: Wire, fields: seq<Wire>, k: Key)
    ensures LastKey([field] + fields, k) == LastKey(fields, LastKey([field], k))
    decreases |fields|
  {
    if fields == [] {
      assert [field] + fields == [field];
    } else {
      var all := [field] + fields;
      assert all[|all| - 1] == fields[|fields| - 1] && all[..|all| - 1] == [field] + fields[..|fields| - 1];
      KeyInFront(field, fields[..|fields| - 1], k);
    }
  }

  lemma OneKey(field: Wire, k: Key)
    ensures LastKey([field], k) == if field.KeyField? && field.key.Some? then field.key.v else k
  {
    assert [field][..0] == [];
    assert LastKey([], k) == k;
  }

  /** What is read: the last key and all values up to the end, unless a field there is corrupt; what is behind stays. */
  lemma {:induction false} WhatIsRead(h: Handlers, e: Entry, fields: seq<Wire>)
    ensures var own := UpToEnd(fields);
            ReadEntry(h, e, fields)
            == if (exists i :: 0 <= i < |own| && Corrupt(own[i])) || Merged(h, e.value, own) == None then None
               else Some((Entry(LastKey(own, e.key), Merged(h, e.value, own).v), BehindEnd(fields)))
    decreases |fields|
  {
    if fields != [] && !fields[0].EndTag? {
      var field, rest := fields[0], UpToEnd(fields[1..]);
      var own := [field] + rest;
      assert own[1..] == rest && own[0] == field;
      assert forall i :: 0 <= i < |rest| ==> rest[i] == own[i + 1];
      assert (exists i :: 0 <= i < |own| && Corrupt(own[i])) <==>
               Corrupt(field) || exists i :: 0 <= i < |rest| && Corrupt(rest[i]) by { InFront(field, rest); }
      KeyInFront(field, rest, e.key);
      OneKey(field, e.key);
      match field
      case KeyField(None) =>
      case KeyField(Some(k)) => WhatIsRead(h, e.(key := k), fields[1..]);
      case ValueField(c) =>
        if h.read(e.value, c).Some? { WhatIsRead(h, e.(value := h.read(e.value, c).v), fields[1..]); }
      case Unknown(skips) => WhatIsRead(h, e, fields[1..]);
    }
  }

  lemma InFront(field: Wire, rest: seq<Wire>)
    ensures (exists i :: 0 <= i < |[field] + rest| && Corrupt(([field] + rest)[i])) <==>
              Corrupt(field) || exists i :: 0 <= i < |rest| && Corrupt(rest[i])
  {
    var own := [field] + rest;
    assert own[0] == field;
    forall i | 0 <= i < |rest| ensures own[i + 1] == rest[i] {}
    if i :| 0 <= i < |rest| && Corrupt(rest[i]) { assert Corrupt(own[i + 1]); }
    if i :| 0 <= i < |own| && Corrupt(own[i]) { assert i > 0 ==> own[i] == rest[i - 1]; }
  }

  /** The fields up to the end without those that are skipped. */
  function WithoutSkipped(fields: seq<Wire>): seq<Wire> {
    if fields == [] || fields[0].EndTag? then fields
    else (if fields[0] == Unknown(true) then [] else [fields[0]]) + WithoutSkipped(fields[1..])
  }

  /** A field that is skipped changes nothing. */
  lemma {:induction false} SkippedFieldsDoNothing(h: Handlers, e: Entry, fields: seq<Wire>)
    ensures ReadEntry(h, e, WithoutSkipped(fields)) == ReadEntry(h, e, fields)
    decreases |fields|
  {
    if fields != [] && !fields[0].EndTag? {
      var kept := WithoutSkipped(fields[1..]);
      assert ([fields[0]] + kept)[1..] == kept && [] + kept == kept;
      match fields[0]
      case KeyField(None) =>
      case KeyField(Some(k)) => SkippedFieldsDoNothing(h, e.(key := k), fields[1..]);
      case ValueField(c) =>
        if h.read(e.value, c).Some? { SkippedFieldsDoNothing(h, e.(value := h.read(e.value, c).v), fields[1..]); }
      case Unknown(skips) => SkippedFieldsDoNothing(h, e, fields[1..]);
    }
  }

  lemma KeyThenValue(h: Handlers, e: Entry, k: Key, c: Chunk, rest: seq<Wire>)
    ensures ReadEntry(h, e, [KeyField(Some(k)), ValueField(c)] + rest)
         == ReadEntry(h, e.(key := k), [ValueField(c)] + rest)
    ensures ReadEntry(h, e, [ValueField(c)] + rest)
         == match h.read(e.value, c)
            case None => None
            case Some(v) => ReadEntry(h, e.(value := v), rest)
  {
  }

  function Default(h: Handlers): Entry {
    Entry(h.noKey, h.newEntry)
  }

  // ---------------------------------------------------------------- the slow path

  class SlowParser {
    const h: Handlers
    const luck: Luck
    var input: seq<Wire>
    var entry: Entry

    constructor (h: Handlers, luck: Luck, input: seq<Wire>, entry: Entry)
      ensures this.h == h && this.luck == luck && this.input == input && this.entry == entry
    {
      this.h, this.luck, this.input, this.entry := h, luck, input, entry;
    }

    /** `MapEntryImpl::MergePartialFromCodedStream` */
    method MergePartial() returns (ok: bool)
      modifies this
      ensures match ReadEntry(h, old(entry), old(input))
              case None => !ok
              case Some((e, rest)) => ok && entry == e && input == rest
    {
      while true
        invariant ReadEntry(h, entry, input) == ReadEntry(h, old(entry), old(input))
        decreases |input|
      {
        if input == [] { return true; }
        var field := input[0];
        input := input[1..];
        match field {
          case KeyField(key) =>
            if key.None? { return false; }
            entry := entry.(key := key.v);
            ghost var behind := input;
            if luck.expectTag(|input|) && input != [] && input[0].ValueField? {
              // falls through to the value
              var chunk := input[0].chunk;
              input := input[1..];
              KeyThenValue(h, entry, entry.key, chunk, input);
              assert [ValueField(chunk)] + input == behind;
              var value := h.read(entry.value, chunk);
              if value.None? { return false; }
              entry := entry.(value := value.v);
              if luck.expectAtEnd(|input|) && input == [] { return true; }
            }
          case ValueField(chunk) =>
            var value := h.read(entry.value, chunk);
            if value.None? { return false; }
            entry := entry.(value := value.v);
            if luck.expectAtEnd(|input|) && input == [] { return true; }
          case Unknown(skips) =>
            if !skips { return false; }
          case EndTag =>
            return true;
        }
      }
    }
  }

  // ---------------------------------------------------------------- the fast path

  lemma OneMore(m: map<Key, Value>, k: Key, v: Value)
    requires k !in m
    ensures |m[k := v]| == |m| + 1
  {
  }

  class FastParser {
    const h: Handlers
    const luck: Luck
    var input: seq<Wire>
    var contents: map<Key, Value>
    var key: Key

    constructor (h: Handlers, luck: Luck, input: seq<Wire>, contents: map<Key, Value>)
      ensures this.h == h && this.luck == luck && this.input == input && this.contents == contents
    {
      this.h, this.luck, this.input, this.contents := h, luck, input, contents;
      this.key := h.noKey;
    }

    /**
     `Parser::MergePartialFromCodedStream`: whatever the shortcuts of the stream answer, the outcome is
     that of reading an entry from its default by the reference and storing it, or of nothing at all.
     */
    method MergePartial() returns (ok: bool)
      requires Proper(h)
      modifies this
      ensures match ReadEntry(h, Default(h), old(input))
              case None => !ok && contents == old(contents)
              case Some((e, rest)) => ok && contents == old(contents)[e.key := e.value] && key == e.key && input == rest
    {
      if luck.expectTag(|input|) && input != [] && input[0].KeyField? {
        var read := input[0].key;
        input := input[1..];
        if read.None? { return false; }
        key := read.v;
        if luck.buffered(|input|) && input != [] && input[0].ValueField? {
          var size := |contents|;
          if key !in contents {
            OneMore(contents, key, h.newElement);
            contents := contents[key := h.newElement];
          }
          if size != |contents| {
            // a new element: fill in the value
            var chunk := input[0].chunk;
            input := input[1..];
            KeyThenValue(h, Default(h), key, chunk, input);
            assert old(input) == [KeyField(Some(key)), ValueField(chunk)] + input;
            assert h.read(h.newElement, chunk) == h.read(h.newEntry, chunk);
            var value := h.read(contents[key], chunk);
            if value.None? {
              contents := contents - {key};
              assert contents == old(contents);
              return false;
            }
            contents := contents[key := value.v];
            if luck.expectAtEnd(|input|) && input == [] {
              assert contents == old(contents)[key := value.v];
              return true;
            }
            assert contents - {key} == old(contents);
            ok := ReadBeyond();
            return;
          }
        }
      } else {
        key := h.noKey;
      }
      ok := ByEntry(Entry(key, h.newEntry));
    }

    /** The rest of the slow path: an entry is read on, and used if that succeeds. */
    method ByEntry(entry: Entry) returns (ok: bool)
      modifies this
      ensures match ReadEntry(h, entry, old(input))
              case None => !ok && contents == old(contents)
              case Some((e, rest)) => ok && contents == old(contents)[e.key := e.value] && key == e.key && input == rest
    {
      var slow := new SlowParser(h, luck, input, entry);
      ok := slow.MergePartial();
      input := slow.input;
      if ok {
        key := slow.entry.key;
        contents := contents[key := slow.entry.value];
      }
    }

    /** `ReadBeyondKeyValuePair`: more fields follow, so the element comes out of the map again. */
    method ReadBeyond() returns (ok: bool)
      requires key in contents
      modifies this
      ensures match ReadEntry(h, Entry(old(key), old(contents[key])), old(input))
              case None => !ok && contents == old(contents - {key})
              case Some((e, rest)) =>
                ok && contents == old(contents - {key})[e.key := e.value] && key == e.key && input == rest
    {
      var entry := Entry(key, contents[key]);
      contents := contents - {key};
      ok := ByEntry(entry);
    }
  }
}
