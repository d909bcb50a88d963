# DMProxy, verified

DMProxy relays live-chat streams to WebSocket clients: a client names a room such as `douyu_123`, the
server opens the platform's stream for it once, and passes every message on to all who listen. This
project models the algorithms it stands on and proves what they are for.

- **Hash map** (`BucketLayout`, `TableMemory`, `HashMap`). The protobuf `InnerMap`: chains that turn into
  trees shared by buckets b and b^1, growing and shrinking, a cached first bucket, iterators that find
  their bucket again after a rehash. `BucketLayout` states the layout as a value and proves what each
  operation does to it; `TableMemory` shows when table entries, `next` pointers and tree contents realise
  a layout; the class `InnerMap` has the loops of the code. Any run of operations answers as a finite map.
- **UTF-8** (`Utf8Validator`). The table-driven validator accepts exactly RFC 3629, in any chunks.
- **JSON** (`JsonValue`, `JsonGrammar`, `JsonReading`, `JsonGaps`, `JsonRecognition`, `JsonDocuments`,
  `JsonStrings`, `JsonParser`, `JsonObjects`, `JsonPrinter`, `JsonUtf8`, `JsonLetters`, `JsonPrinted`).
  `JsonGrammar` gives RFC 8259, sections 2 to 7, with or without comments between tokens, as syntax trees
  with a text, a depth and a meaning, and knows nothing of the parser. `JsonReading` says how json11 reads
  as functions of a position; `JsonGaps` and `JsonRecognition` prove that this recognises exactly the
  grammar; `JsonDocuments` shows that comments read as blanks, and what a text of several documents is;
  the class in `JsonParser` moves a cursor and keeps the first error, and each of its methods is tied to
  those functions. `JsonPrinter` prints, and what it prints is read back. `JsonLetters` and `JsonPrinted`
  say in letters what texts mean and what is printed.
- **WebSocket frames** (`Masking`, `FrameHeader`). The byte, word and streaming maskers on 64-bit
  little-endian words, and the header codec, after RFC 6455, sections 5.2 and 5.3.
- **Rooms** (`Registry`). The three handlers under the registry lock, and the pruning in `publish`, as a
  state machine and as a server object that takes its steps.
- **Codecs** (`Base64`, `PublishJson`, `MapEntry`, `Douyu`, `Bilibili`; `Wire32`, `Streams` and `Buffers`
  help). Base64 after RFC 4648, section 4; the JSON message that is published; the fast path of map-entry
  parsing against the slow one; the packet formats of two platforms and the readers that cut their streams.

Code that changes things step by step is a class or a method with a loop, proved against a function;
the properties are proved about those functions.

## Main results

- `HashMap.Run`: the table answers any run of operations as a finite map; `BucketLayout.RoomAfterResize` says
  exactly when a resize leaves room.
- `Utf8Validator.Validate` and `ValidateInChunks`: exactly RFC 3629, in any pieces.
- `JsonParser.Parse` and `ParseMulti`, `JsonRecognition.ReadsExactlyTheGrammar`, `JsonDocuments.CommentsAreBlanks`:
  exactly the grammar, in both strategies; `JsonLetters.EscapeMeans` and its neighbours: what the text means.
- `JsonPrinter.RoundTrip` and `JsonPrinted.PrintedInLetters`: what is printed, and that it comes back.
- `JsonValue.StrictTotalOrder`, `JsonUtf8.ParsedIsUtf8`, `PublishJson.MessageTravels`.
- `Masking.MaskStream`, `FrameHeader.HeaderBack` with `FlagsOnTheWire` and `SizeOnTheWire`.
- `Registry.EveryRun`, `LeftBehindAfterRun`, `DesertedAfterRun` and `PublishWhileJoining`.
- `Base64.DecodesEncoded` with `EncodedLetters`, `MapEntry.FastParser.MergePartial`, `Douyu.Receive`,
  `Bilibili.Receive`.

## Environment

What the code gets from outside is a parameter. The hash and the order of keys are any function and any
strict total order (the hash seed is part of the hash). `strtod` is any function that is exact on integer
literals of at most ten digits, and may yield infinities; the printing of a finite double is any function
that yields a number of the grammar; both are needed only where numbers are read back. Whether a room is
valid, which sends fail, the random number of a user, and what the shortcuts of a protobuf input stream
answer is free. Memory never runs out.

## Where code and documentation differ

- The comment at lines 728-730 of `include/google/protobuf/map.h` promises that a table does not shrink so
  much that it would have to grow after a few inserts. It can: 64 buckets with 12 elements shrink to 16
  buckets, whose cutoff is 12, and the next insertion grows the table again (`BucketLayout.ShrinksTooFar`).
  `BucketLayout.ShrinkLeavesRoom` says exactly when the promise is kept, for any number of inserts. What
  always holds is that five times the elements stay below six times the buckets.
- `word_mask_circ` is documented to rewrite the octets behind `length` with the same values and to need a
  buffer of whole words (lines 736-764 of `include/websocketpp/frame.hpp`). The code reads and writes
  exactly `length` octets, and that is what is proved.
- `circshift_prepared_key` shifts by a whole word when the offset is 0. Here such a shift leaves nothing,
  so that the result is the key itself, which is what its callers need.
- A connection that joins a room already open keeps its old close handler (lines 91-94 of `main.cpp`), so
  closing may leave it listed: exactly where it listens, unless it has opened that room last
  (`Registry.LeftBehindAfterRun`).
- A `publish` that reaches nobody in a room leaves it mapped without listeners; `Registry.DesertedAfterRun`
  says exactly when a room is in that state.
- `publish` erases listeners while holding the lock for readers of its own instance, so it may fall into
  the middle of a handler. A call of it is one step here; `Registry.PublishWhileJoining` shows that a call
  at any point of the message handler has the effect of one before it or after it.

## Model

| member | source | states |
|---|---|---|
| `HashMap.Run` | include/google/protobuf/map.h:498-647 | any run of insert, `operator[]`, assignment, find, erase and clear, with any hash and whatever resizes it causes, answers exactly as a plain finite map and ends as that map |
| `HashMap.Perform` | include/google/protobuf/map.h:541-614 | one operation on the table answers, and changes the table, as it would a finite map |
| `HashMap.InnerMap.constructor` | include/google/protobuf/map.h:316-325 | a new table is valid, stands for the empty map and has at least eight buckets |
| `HashMap.InnerMap.FindHelper` | include/google/protobuf/map.h:623-647 | finds the node with the key exactly if there is one, and the bucket where it is or would go, even for a shared tree |
| `HashMap.InnerMap.Find` | include/google/protobuf/map.h:537-538 | finds the node of a key exactly if the map has the key, and with it the map's value |
| `HashMap.InnerMap.Insert` | include/google/protobuf/map.h:541-576 | adds the pair exactly if the key is new, says so, and returns the node of the key; no other node comes or goes |
| `HashMap.InnerMap.InsertNew` | include/google/protobuf/map.h:546-556 | the new node goes into the right bucket even if making room resized the table |
| `HashMap.InnerMap.Index` | include/google/protobuf/map.h:578-581 | returns the node of the key, which now is in the map, with a null value if it was not there |
| `HashMap.InnerMap.InsertUnique` | include/google/protobuf/map.h:653-683 | the node is added to its bucket or shared tree (made now if the list is full), nothing else moves, and the first non-null index is exact again |
| `HashMap.InnerMap.TreeConvert` | include/google/protobuf/map.h:819-833 | the lists of b and b^1 become one tree with exactly their nodes, all unlinked, in both entries |
| `HashMap.InnerMap.CopyListToTree` | include/google/protobuf/map.h:837-848 | every node of a list is added to the tree and unlinked; the count is the length of the list |
| `HashMap.InnerMap.ResizeIfLoadIsOutOfRange` | include/google/protobuf/map.h:713-744 | the table doubles at the cutoff, shrinks at a quarter of it to the size the shrink rule goes for, and else stays; five times the elements stay below six times the buckets while it may still grow; the new size lies below the new cutoff exactly under the condition of `RoomAfterResize`; nodes and keys stay the same |
| `BucketLayout.ShrinkKeepsLoad` | include/google/protobuf/map.h:725-742 | the table size that the shrink rule picks keeps the load bound |
| `BucketLayout.ShrinkRule` | include/google/protobuf/map.h:728-738 | shifting the estimate up to the cutoff finds the largest smaller power of two whose own cutoff the estimate reaches, or eight |
| `BucketLayout.ShrinkLeavesRoom` | include/google/protobuf/map.h:728-738 | a table shrunk for some elements takes a given number of further ones before it has to grow exactly if they are fewer than six in all or some cutoff lies above that number and not above the estimate |
| `BucketLayout.ShrinksTooFar` | include/google/protobuf/map.h:728-738 | an input for which it takes none: 64 buckets and 12 elements shrink to 16 buckets, which the 13th makes grow again |
| `BucketLayout.RoomAfterResize` | include/google/protobuf/map.h:713-744 | after a resize the size asked for lies below the cutoff exactly if the table did not have to shrink, or shrank under the condition of `ShrinkLeavesRoom` |
| `HashMap.InnerMap.SmallerSize` | include/google/protobuf/map.h:725-738 | the loop over shift counts ends with the size of the shrink rule |
| `HashMap.InnerMap.Resize` | include/google/protobuf/map.h:747-763 | every node moves to its bucket in the new table; none is lost and none appears; the layout and the first non-null index are right again |
| `HashMap.InnerMap.TransferList` | include/google/protobuf/map.h:765-772 | a list is moved node by node although moving a node overwrites its `next` |
| `HashMap.InnerMap.TransferTree` | include/google/protobuf/map.h:774-782 | the nodes of a shared tree are moved once, not once per bucket |
| `BucketLayout.InsertKeepsLayout` | include/google/protobuf/map.h:292-311 | adding a node to its bucket keeps every layout invariant: own bucket, shared pairs, list length at most eight, key order in trees |
| `BucketLayout.Limits` | include/google/protobuf/map.h:292-311 | in a legal layout no list is longer than eight, there are at least eight buckets, a power of two, and the cutoff is three quarters of them |
| `BucketLayout.RemoveKeepsLayout` | include/google/protobuf/map.h:583-605 | removing a node keeps every layout invariant, also when the last node of a tree goes |
| `BucketLayout.InsertKeepsFirst` | include/google/protobuf/map.h:679-682 | the minimum kept by insertion is the first non-empty bucket |
| `TableMemory.EntryKinds` | include/google/protobuf/map.h:793-817 | comparing an entry with its partner tells empty, list and tree apart: b and b^1 hold the same non-null pointer exactly if they share a tree |
| `TableMemory.ConvertRealises` | include/google/protobuf/map.h:819-848 | the pointers written by the conversion are those of the converted layout; all nodes of a tree have a null `next` |
| `TableMemory.EraseListRealises` | include/google/protobuf/map.h:784-791 | unlinking a node from its list gives the list without it |
| `TableMemory.EraseTreeRealises` | include/google/protobuf/map.h:595-605 | erasing a node from its tree, or the tree with its last node, gives the layout without the node |
| `BucketLayout.OnlyAtHome` | include/google/protobuf/map.h:623-647 | a key can be nowhere but in its own bucket or the tree of its pair, so one bucket is enough to look into |
| `BucketLayout.NodeOfKeyUnique` | include/google/protobuf/map.h:292-311 | no two live nodes have the same key |
| `HashMap.InnerMap.SearchFrom` | include/google/protobuf/map.h:399-415 | finds the first node at or behind a bucket |
| `HashMap.InnerMap.Revalidate` | include/google/protobuf/map.h:458-482 | finds the right bucket of any live node, however stale the index it starts from, and whether it is a list |
| `HashMap.InnerMap.Advance` | include/google/protobuf/map.h:427-446 | steps to the node that comes next in the iteration order, from any live node |
| `HashMap.InnerMap.Walk` | include/google/protobuf/map.h:376-446 | iterating an unmodified map visits every node, and so every key, exactly once |
| `BucketLayout.OrderVisitsEachOnce` | include/google/protobuf/map.h:399-446 | the iteration order of a legal layout holds each of its nodes once |
| `HashMap.InnerMap.EraseFromLinkedList` | include/google/protobuf/map.h:784-791 | relinks the list without the item, leaving all other lists alone |
| `HashMap.InnerMap.EraseFromBucket` | include/google/protobuf/map.h:589-605 | takes the node out of its list or tree, and frees both entries when a tree is empty |
| `HashMap.InnerMap.Erase` | include/google/protobuf/map.h:583-614 | removes exactly this element, keeps the bucket count, the order of the others, and the exact count and first index |
| `HashMap.InnerMap.DropAll` | include/google/protobuf/map.h:499-524 | the loop of `clear` nulls every entry, stepping over the second half of a shared pair |
| `HashMap.InnerMap.Clear` | include/google/protobuf/map.h:498-527 | an empty, valid table of the same size |
| `HashMap.InnerMap.EraseAndStep` | include/google/protobuf/map.h:1116-1121 | `Map::erase(iterator)` steps past the element first, and the iterator it returns is the next one of the order before |
| `HashMap.InnerMap.EraseKey` | include/google/protobuf/map.h:1107-1115 | `Map::erase(key)` removes the key and returns whether there was one |
| `HashMap.InnerMap.ClearByErasing` | include/google/protobuf/map.h:1122-1127 | `Map::clear`, which erases while iterating, ends, and with an empty map |
| `BucketLayout.OrderAfterRemove` | include/google/protobuf/map.h:583-605 | erasing a node takes it out of the iteration order and moves no other, even if its tree goes |
| `Utf8Validator.Validate` | include/websocketpp/utf8_validator.hpp:143-149 | true exactly for concatenations of RFC 3629 encodings of Unicode scalar values |
| `Utf8Validator.ValidateInChunks` | include/websocketpp/utf8_validator.hpp:91-127 | fed in any pieces, the validator gives the verdict on the whole |
| `Utf8Validator.AcceptsExactlyUtf8` | include/websocketpp/utf8_validator.hpp:45-78 | the table-driven machine accepts exactly the UTF-8 strings |
| `Utf8Validator.CodepointIsLastScalar` | include/websocketpp/utf8_validator.hpp:69-78 | each time the machine is back in its accepting state, `m_codepoint` is the scalar just read |
| `Utf8Validator.RejectStays` | include/websocketpp/utf8_validator.hpp:55-56 | the rejecting state is never left |
| `Utf8Validator.ClassTable` | include/websocketpp/utf8_validator.hpp:46-54 | the first 256 table entries classify bytes by the ranges of RFC 3629, section 4 |
| `Utf8Validator.StateTable` | include/websocketpp/utf8_validator.hpp:55-59 | the rest of the table is the transition relation of a nine-state machine |
| `Utf8Validator.EncodingsAreWellFormed` | include/websocketpp/utf8_validator.hpp:69-78 | the encodings of section 3 of RFC 3629 are among the well-formed sequences of section 4 and stand for the scalar that was encoded |
| `Utf8Validator.WellFormedIsEncoding` | include/websocketpp/utf8_validator.hpp:69-78 | every well-formed sequence is the encoding of a scalar |
| `Utf8Validator.RunWellFormed` | include/websocketpp/utf8_validator.hpp:69-78 | reading one well-formed sequence ends in the accepting state, holding its scalar |
| `Utf8Validator.RunConcat` | include/websocketpp/utf8_validator.hpp:105-118 | reading two pieces one after the other is reading them joined |
| `Utf8Validator.Validator.DecodeChunk` | include/websocketpp/utf8_validator.hpp:105-118 | false exactly if the machine rejects within the piece; otherwise the machine has read all of it |
| `Utf8Validator.Validator.Complete` | include/websocketpp/utf8_validator.hpp:124-126 | whatever was fed since the validator was new or reset, true exactly if that is UTF-8 |
| `JsonValue.StrictTotalOrder` | json11/json11.cpp:302-318 | `operator<` is a strict total order up to `operator==`, which is an equivalence, over nested values and mixed int and double numbers, infinities included |
| `JsonValue.Trichotomy` | json11/json11.cpp:161-189 | exactly one of a < b, a == b, b < a holds |
| `JsonValue.Transitivity` | json11/json11.cpp:161-189 | both relations are transitive, also through each other |
| `JsonValue.StringTrichotomy` | json11/json11.cpp:197-202 | byte strings are totally ordered |
| `JsonValue.KindsInOrder` | json11/json11.cpp:302-312 | null is less than numbers, these than bools, strings, arrays and objects in this order; false is less than true |
| `JsonValue.NumbersByValue` | json11/json11.cpp:161-189 | numbers compare by value, ints with doubles too |
| `JsonValue.StringsByFirstDifference` | json11/json11.cpp:160-165 | strings compare at the first byte that differs; a proper prefix is less |
| `JsonValue.ArraysByFirstDifference` | json11/json11.cpp:160-165 | arrays compare at the first elements that are not equal |
| `JsonValue.ObjectsByFirstDifference` | json11/json11.cpp:160-165 | objects compare at the first member that differs, by its key or else its value |
| `JsonObjects.PutUpdates` | json11/json11.cpp:688-690 | `data[key] = value` keeps the keys in strictly increasing order and changes the value of this key only |
| `JsonObjects.LastDuplicateWins` | json11/json11.cpp:671-701 | of members with the same key, the last one's value is what the object holds |
| `JsonObjects.MeaningIsProper` | json11/json11.cpp:644-728 | every value that parsing returns has proper maps for objects, at every depth |
| `JsonRecognition.ReadsExactlyTheGrammar` | json11/json11.cpp:480-744 | in either strategy, reading succeeds on exactly the texts of the RFC 8259 grammar (with comments between tokens in COMMENTS) nested at most 200 levels, and finds the derivation of the text |
| `JsonRecognition.Unambiguous` | json11/json11.cpp:480-728 | a text has at most one derivation, however deep, with comments as without |
| `JsonRecognition.ReadUnlessTooDeep` | json11/json11.cpp:644-647 | a text of the grammar is read exactly if it is at most 200 levels deep |
| `JsonDocuments.CommentsAreBlanks` | json11/json11.cpp:386-435 | in COMMENTS a text reads as the text with every comment replaced by a blank reads in STANDARD: both or neither are read, and they denote the same value |
| `JsonDocuments.ReadsManyDocuments` | json11/json11.cpp:747-766 | reading many values gets to the end exactly of the concatenations of documents each of which ends where the next can begin, and finds all of them, in order |
| `JsonGaps.GapSound` | json11/json11.cpp:377-435 | what is skipped between tokens is whitespace and, in COMMENTS, whole comments; only at the end of the text may a line comment stay open |
| `JsonGaps.GapComplete` | json11/json11.cpp:377-435 | whitespace and comments are skipped up to the next significant character, however they are mixed |
| `JsonRecognition.ValueSound` | json11/json11.cpp:644-728 | what is read as a value is the text of a grammatical tree, not too deep |
| `JsonRecognition.ValueComplete` | json11/json11.cpp:644-728 | the text of every grammatical tree that is not too deep is read as that tree, wherever it stands |
| `JsonRecognition.NumberSound` | json11/json11.cpp:573-622 | what is read as a number is a number of the grammar |
| `JsonRecognition.NumberComplete` | json11/json11.cpp:573-622 | every number of the grammar, in front of something that cannot continue it, is read whole |
| `JsonRecognition.StringSound` | json11/json11.cpp:480-567 | what is read as a string is a string of the grammar |
| `JsonRecognition.StringComplete` | json11/json11.cpp:480-567 | every string of the grammar is read up to its closing quote |
| `JsonParser.Parse` | json11/json11.cpp:732-744 | in either strategy, succeeds exactly on the grammar, returns the value the text denotes and leaves `err` alone; on failure it returns null and reports an error |
| `JsonParser.ParseMulti` | json11/json11.cpp:747-766 | reports no error exactly for a concatenation of documents each of which ends where the next can begin, and then returns their values and stops at the end; otherwise it returns what was read up to the failure, and where the last complete value ended |
| `JsonParser.Parser.ConsumeComment` | json11/json11.cpp:386-418 | skips one comment, or fails exactly if it is malformed or does not end; a line comment may end with the text |
| `JsonParser.Parser.ConsumeGarbage` | json11/json11.cpp:424-435 | skips whitespace and, in COMMENTS only, any number of comments; every round advances or ends the loop |
| `JsonParser.Parser.ParseString` | json11/json11.cpp:480-567 | reads one string of the grammar and returns the two-step meaning of RFC 8259, section 7, although it makes one pass with one code point pending |
| `JsonParser.Parser.ParseNumber` | json11/json11.cpp:573-622 | reads one number of the grammar; literals of at most nine characters without fraction and exponent give an int, all others what `strtod` makes of exactly their text |
| `JsonParser.Parser.ParseJson` | json11/json11.cpp:644-651 | reads one value at a depth of at most 200 and returns its meaning, or fails; the recursion is bounded by the depth |
| `JsonParser.Parser.ParseItems` | json11/json11.cpp:709-724 | the loop returns the meanings of all elements in order; each round advances or fails |
| `JsonParser.Parser.ParseMembers` | json11/json11.cpp:676-700 | the loop stores every member in order, so that a later duplicate wins; each round advances or fails |
| `JsonStrings.CodeProgress` | json11/json11.cpp:526-546 | an escaped code point pairs up with a pending high surrogate, or takes its place: what is out and what is pending still add up to the two-step meaning |
| `JsonStrings.ByteProgress` | json11/json11.cpp:548-565 | a plain or escaped character flushes what is pending |
| `JsonStrings.ProgressEnds` | json11/json11.cpp:489-492 | flushing at the closing quote completes the meaning |
| `JsonStrings.EncodeCodePoint` | json11/json11.cpp:455-474 | the shifts and masks give the encoding of RFC 3629, section 3, also of a surrogate; nothing for a negative argument |
| `JsonLetters.EscapeMeans` | json11/json11.cpp:519-546 | `\u` and four hexadecimal digits of either case stand for the UTF-8 encoding of 4096, 256, 16 and 1 times their values |
| `JsonLetters.EscapeIsRead` | json11/json11.cpp:480-567 | a text that is one such string is read as the string of this character |
| `JsonLetters.PairMeans` | json11/json11.cpp:526-546 | the escapes of the two UTF-16 units of a character beyond the basic plane stand for its encoding |
| `JsonLetters.ShortEscapes` | json11/json11.cpp:548-565 | a backslash may be followed by exactly the eight characters " \ / b f n r t, apart from u |
| `JsonLetters.ShortEscapesMean` | json11/json11.cpp:548-565 | these stand for quote, backslash, slash, and the bytes 8, 12, 10, 13 and 9 |
| `JsonLetters.RawMeans` | json11/json11.cpp:494-508 | any other byte from 32 on stands for itself |
| `JsonLetters.MeaningOfParts` | json11/json11.cpp:480-567 | the meaning of a string is that of its parts in order, unless a high and a low surrogate escape meet between them |
| `JsonLetters.NumberText` | json11/json11.cpp:573-622 | a number in letters: sign, digits, point, exponent |
| `JsonLetters.NumberRules` | json11/json11.cpp:573-622 | which of these are numbers: digits 0 to 9, no zero in front of others, digits behind a point, e or E |
| `JsonLetters.NumberMeans` | json11/json11.cpp:592-622 | an integer of at most nine characters means its decimal value, anything else what `strtod` makes of it |
| `JsonLetters.WordTexts` | json11/json11.cpp:658-665 | the words are null, true and false |
| `JsonLetters.ArrayText` | json11/json11.cpp:705-727 | arrays in letters: brackets, and a comma between each two elements |
| `JsonLetters.ObjectText` | json11/json11.cpp:671-703 | objects in letters: braces, quoted keys, colons, and a comma between each two members |
| `JsonLetters.BlanksAre` | json11/json11.cpp:377-380 | whitespace is exactly blank, tab, line feed and carriage return |
| `JsonLetters.CommentsAre` | json11/json11.cpp:386-418 | comments in letters: two slashes up to the end of the line, or slash star up to the first star slash |
| `JsonLetters.HowDeep` | json11/json11.cpp:644-647 | n nested arrays are read exactly if n is at most 201 |
| `JsonPrinter.RoundTrip` | json11/json11.cpp:53-142 | parsing what is printed gives no error exactly if the value is at most 200 levels deep; what comes back then equals the value exactly if no double in it is infinite (an infinite one is printed as null) |
| `JsonPrinter.Dump` | json11/json11.cpp:140-142 | prints the text of the value's syntax tree |
| `JsonPrinter.DumpString` | json11/json11.cpp:77-112 | the loop with its two bytes of lookahead prints the characters of the string, never reading behind the NUL at its end |
| `JsonPrinter.DumpArray` | json11/json11.cpp:114-124 | elements in order, with a comma and a blank between them |
| `JsonPrinter.DumpObject` | json11/json11.cpp:126-138 | members in key order, with a colon and a blank behind each key |
| `JsonPrinter.PrintedStringMeans` | json11/json11.cpp:77-112 | what is printed for any byte string, embedded NUL, U+2028 and invalid UTF-8 included, is a string of the grammar that means exactly this byte string |
| `JsonPrinter.PrintedIsGrammatical` | json11/json11.cpp:53-142 | what is printed is grammatical and as deep as the value |
| `JsonPrinter.PrintedMeans` | json11/json11.cpp:53-142 | the printed text denotes a value equal to the one printed exactly if no double in it is infinite |
| `JsonPrinter.PrintedNumberMeans` | json11/json11.cpp:592-621 | an int of more than nine characters comes back as a double, which still compares equal |
| `JsonPrinter.DumpIsRead` | json11/json11.cpp:732-744 | reading the printed text gives its tree, or nothing if the value is too deep; its meaning equals the value exactly if all numbers are finite |
| `JsonPrinted.PrintedInLetters` | json11/json11.cpp:53-142 | what is printed for any value, character by character: the seven short escapes, `\u00` and two lower-case digits, U+2028 and U+2029, decimal digits, words, and where commas, colons and blanks stand |
| `JsonUtf8.DecodedIsUtf8` | json11/json11.cpp:480-567 | a string within a UTF-8 text decodes to UTF-8 exactly if it has no lone surrogate escape |
| `JsonUtf8.ParsedIsUtf8` | json11/json11.cpp:732-744 | in either strategy, parsing a UTF-8 text without lone surrogate escapes gives a value all of whose strings and keys are UTF-8, whatever is in its comments |
| `JsonUtf8.PrintedIsUtf8` | json11/json11.cpp:77-112 | what is printed for a string is UTF-8 exactly if the string is |
| `JsonUtf8.PrintedValueIsUtf8` | json11/json11.cpp:53-142 | what is printed for a value is UTF-8 exactly if all its strings and keys are |
| `PublishJson.Build` | platforms/platform_base.cpp:54-63 | the message is the printed object with nickname and text in base64, and it is UTF-8 exactly if the uid is |
| `PublishJson.MessageInLetters` | platforms/platform_base.cpp:54-63 | the message in letters: nickname and text in base64, then the uid, in an object with these three keys |
| `PublishJson.MessageTravels` | platforms/platform_base.cpp:54-63 | it is parsed back to the very same object, whose fields decode to the nickname and text that went in, whatever bytes these are |
| `Base64.Encode` | utils/base64.cpp:45-85 | the loop over groups of three, with its masks and shifts, computes the base-64 digits of each 24-bit group, zero bits and padding at the end |
| `Base64.Decode` | utils/base64.cpp:87-122 | the loop over groups of four computes the bytes of the alphabet characters before the first other one; stale buffer contents do not matter |
| `Base64.DecodesEncoded` | utils/base64.cpp:45-122 | decoding what was encoded gives back every byte string (RFC 4648, section 4) |
| `Base64.EncodedIsText` | utils/base64.cpp:35-85 | only alphabet and padding characters come out, four for every three bytes begun |
| `Base64.DecodingStops` | utils/base64.cpp:95 | whatever follows the first character outside of the alphabet is ignored |
| `Base64.AlphabetIs` | utils/base64.cpp:35-43 | the alphabet is A to Z, a to z, 0 to 9, + and /, each letter standing for its place in this order |
| `Base64.EncodedLetters` | utils/base64.cpp:45-63 | the four letters of every group of three bytes are its 24-bit number in base 64 |
| `Base64.LastLetters` | utils/base64.cpp:65-85 | a last group of one or two bytes gives two or three letters, and equals signs up to four |
| `Base64.DecodedBytes` | utils/base64.cpp:87-107 | every four letters give the three bytes of their 24-bit number |
| `Base64.LastBytes` | utils/base64.cpp:109-122 | two or three letters at the end give one or two bytes, one alone none |
| `Masking.MaskStream` | include/websocketpp/frame.hpp:765-838 | however a message is cut into pieces, and whichever circular masker each is given to, threading the returned key through masks the whole as RFC 6455, section 5.3 says |
| `Masking.ByteMask` | include/websocketpp/frame.hpp:641-652 | masks octet i with octet i + offset modulo 4 of the key, also in place; nothing else in the output changes |
| `Masking.WordMaskExact` | include/websocketpp/frame.hpp:699-714 | gives what `byte_mask` gives, and writes exactly `length` octets |
| `Masking.WordMaskCirc` | include/websocketpp/frame.hpp:765-786 | masks as from the position the key was prepared for, writes exactly `length` octets, and returns the key for the next position |
| `Masking.ByteMaskCirc` | include/websocketpp/frame.hpp:827-838 | the same, octet by octet, with the low half of the key |
| `Masking.PrepareMaskingKey` | include/websocketpp/frame.hpp:595-604 | the word holds the key twice, ready for the start of a message |
| `Masking.CircshiftOctets` | include/websocketpp/frame.hpp:612-620 | shifting moves octet k + offset to place k, around the word; by nothing, nothing moves |
| `Masking.PreparedShift` | include/websocketpp/frame.hpp:612-620 | shifting a key prepared for one position prepares it for a later one |
| `Masking.MaskingTwice` | include/websocketpp/frame.hpp:641-652 | masking twice restores the message |
| `Masking.MaskedConcat` | include/websocketpp/frame.hpp:641-652 | masking a message is masking its pieces, each from where the one before it ended |
| `Masking.MaskedAt` | include/websocketpp/frame.hpp:641-652 | octet k of the masked message is octet k of the message combined with octet k + offset modulo 4 of the key |
| `Masking.MaskedWord` | include/websocketpp/frame.hpp:707-709 | one exclusive-or on words is eight on octets, with the right key octets |
| `FrameHeader.HeaderBack` | include/websocketpp/frame.hpp:431-585 | from a header and anything behind it a reader gets back flags, opcode, the 64-bit size and the key; two octets tell the exact length of the header |
| `FrameHeader.FlagsOnTheWire` | include/websocketpp/frame.hpp:177-228 | the first octet is 128 FIN + 64 RSV1 + 32 RSV2 + 16 RSV3 + opcode; the second is 128 MASK + the size, 126 or 127 |
| `FrameHeader.SizeOnTheWire` | include/websocketpp/frame.hpp:240-274 | behind them come the octets of the size, most significant first, and then the key of a masked frame |
| `FrameHeader.SizeFormIsMinimal` | include/websocketpp/frame.hpp:216-227 | no header, whatever its octets, announces the same size in fewer octets; there are 0, 2 or 8 of them (RFC 6455, section 5.2) |
| `FrameHeader.HeadersArePrefixFree` | include/websocketpp/frame.hpp:445-502 | no header is a proper beginning of another |
| `FrameHeader.BasicBack` | include/websocketpp/frame.hpp:194-228 | every flag, the four bits of the opcode and the size code come out of the first two octets as they went in |
| `FrameHeader.BasicHeader.constructor` | include/websocketpp/frame.hpp:194-228 | setting the bits one after the other gives the two octets |
| `FrameHeader.ExtendedHeader.constructor` | include/websocketpp/frame.hpp:240-256 | the twelve octets hold the size in network order, then the key, then zeros |
| `FrameHeader.BigEndianBack` | include/websocketpp/frame.hpp:540-559 | a size in network order is read back, in either form |
| `Registry.EveryRun` | main.cpp:33-116 | after every run, a connection listens in at most one mapped room, the one bound in its message handler; an instance has been started once if it was ever mapped and never if not; every mapped instance is not closed; none is closed twice, and a closed one had been started and has no listeners |
| `Registry.InvalidRoomNeverStarts` | main.cpp:96-107 | an instance made for a room that turns out not to be valid is never mapped, started or closed, whatever happens later |
| `Registry.StepKeeps` | main.cpp:33-116 | every critical section keeps the registry invariant |
| `Registry.FallThroughUnreachable` | main.cpp:89-94 | a connection that has just left its room is in no other, so the fall-through that would start a running instance again is never reached |
| `Registry.UnmappedIsLeftAlone` | main.cpp:33-51 | an instance that is no longer mapped is never mapped, started or closed again, and gains no listener |
| `Registry.StaysInhabited` | platforms/platform_base.cpp:37-52 | a step leaves every mapped room inhabited exactly if it is not a `publish` that reaches nobody in one of them |
| `Registry.InhabitedThroughout` | platforms/platform_base.cpp:37-52 | all mapped rooms have listeners after every part of a run exactly if no `publish` in it reaches nobody in a room |
| `Registry.DesertedByStep` | platforms/platform_base.cpp:37-52 | a room becomes deserted exactly by a `publish` that reaches nobody in it, and stays so exactly until a connection not bound to it names it, one bound to it leaves it, or it is closed |
| `Registry.DesertedAfterRun` | platforms/platform_base.cpp:37-52 | after any run, a room is deserted exactly if a `publish` has reached nobody in it and it was neither entered nor closed since |
| `Registry.InhabitedUnlessSendsFail` | platforms/platform_base.cpp:37-52 | the special case of `InhabitedThroughout` in which no send fails: every mapped room keeps a listener |
| `Registry.MessageIsExact` | main.cpp:53-116 | a message that names a room moves its sender there, or out of all rooms, and leaves every other connection where it is |
| `Registry.OtherMessagesDoNothing` | main.cpp:53-68 | a message that is not text, or whose trimmed payload has at most three characters, begins with '_' or has no '_' inside, changes nothing at all |
| `Registry.BoundByStep` | main.cpp:53-75 | a message that names a room binds its sender to it; nothing else binds or unbinds anybody |
| `Registry.MappedByStep` | main.cpp:33-116 | which rooms are mapped after a step: those opened by it, and those that were and that their last listener or platform does not leave; they keep their instances |
| `Registry.ClosedByLeaving` | main.cpp:39-88 | a mapped instance is closed by exactly the step with which its last listener leaves |
| `Registry.UnmappedListeners` | platforms/platform_base.cpp:37-52 | the listeners of an unmapped instance change by its own `publish` only |
| `Registry.OtherStepsAreExact` | main.cpp:33-51 | the other steps take away exactly the listeners they should |
| `Registry.LeaveIsExact` | main.cpp:45-50 | a room goes, and its instance is closed, exactly if nobody else listens in it |
| `Registry.PublishWhileJoining` | main.cpp:53-116 | a `publish` at any point of the message handler, between the halves of leaving, between leaving and arriving, or around the new listener, has the effect of one before the handler or of one after it, in which the sender may count as reached |
| `Registry.InterruptedByNothing` | main.cpp:53-116 | cut into pieces at any of these points, the message handler still does what it does in one piece |
| `Registry.PublishWhileLeaving` | main.cpp:39-51 | in the close handler, a `publish` that falls between erasing the listener and counting the rest has the effect of one before the handler |
| `Registry.ClosingLeavesBehind` | main.cpp:39-110 | a closing connection stays listed in a room exactly if it listens there and its close handler does not name that room |
| `Registry.OpeningIsRemembered` | main.cpp:91-114 | a message opens a room, mapping a new instance, exactly if it names a valid room that nobody has open; exactly then is the close handler bound to it |
| `Registry.PayloadsThatOpen` | main.cpp:59-110 | whatever blanks stand around it, a payload opens a valid room that nobody has open exactly if it is douyu, bilibili, huajiao or YY, then '_', then something |
| `Registry.ClosesInLastOpened` | main.cpp:91-114 | after any run, a close handler names the room that its connection has opened last, and none if it has opened none |
| `Registry.LeftBehindAfterRun` | main.cpp:39-114 | after any run, a closing connection stays listed exactly where it listens, unless that is the room it has opened last |
| `Registry.LeftBehind` | main.cpp:91-94 | a run of three steps in which that happens to a connection that has opened no room |
| `Registry.OpenedAndLeftBehind` | main.cpp:62-114 | a run of five steps in which it happens in a room that the connection has opened itself, but not last |
| `Registry.Server.OnServerMessage` | main.cpp:53-116 | the message handler, statement by statement, is the step of the model |
| `Registry.Server.OnServerClose` | main.cpp:39-51 | the close handler is the step of the model |
| `Registry.Server.OnPlatformClose` | main.cpp:33-37 | erases by key, whichever instance is mapped there |
| `Registry.Server.Publish` | platforms/platform_base.cpp:37-52 | the loops of `publish` erase exactly the listeners that could not be reached, and unmap nothing |
| `MapEntry.FastParser.MergePartial` | include/google/protobuf/map_entry_lite.h:347-388 | whatever the shortcuts of the stream answer, the fast path returns, leaves in the map and leaves of the input what reading a default entry the slow way and then assigning would; on failure the map is as before |
| `MapEntry.SlowParser.MergePartial` | include/google/protobuf/map_entry_lite.h:185-225 | the loop with its fall-through computes the reference, whatever `ExpectTag` and `ExpectAtEnd` answer |
| `MapEntry.FastParser.ReadBeyond` | include/google/protobuf/map_entry_lite.h:411-431 | taking the element out again and reading on in an entry loses nothing |
| `MapEntry.FastParser.ByEntry` | include/google/protobuf/map_entry_lite.h:382-407 | reads an entry the slow way and, if that succeeds, stores it under its final key |
| `MapEntry.WhatIsRead` | include/google/protobuf/map_entry_lite.h:185-225 | what is read from an entry: its last key, all its values merged in order, up to the end tag, unless a field before it is corrupt |
| `MapEntry.SkippedFieldsDoNothing` | include/google/protobuf/map_entry_lite.h:214-222 | leaving out the fields that are skipped changes neither the entry nor what is left of the input |
| `Douyu.Receive` | platforms/douyu/douyu.cpp:71-136 | however the packets of `make_stt` arrive, the reader cuts them at their boundaries and handles exactly the first bindings of each, in order, with nothing left over |
| `Douyu.PacketsAreCut` | platforms/douyu/douyu.cpp:95-136 | any stream of packets, with anything behind it, is cut at packet boundaries |
| `Douyu.CutMore` | platforms/douyu/douyu.cpp:71-93 | cutting a stream as it arrives is cutting it as a whole |
| `Douyu.Reader.Feed` | platforms/douyu/douyu.cpp:71-136 | header and body reads alternate as far as the input goes |
| `Douyu.BodyParses` | platforms/douyu/stt.cpp:10-47 | `parse_stt` returns the pairs of a packet, first binding first, when keys hold no slash, NUL or "@=" and values no slash or NUL |
| `Douyu.PairsComeBack` | platforms/douyu/stt.cpp:10-25 | every key is bound to the first of its values, and no other key is bound |
| `Douyu.MakeStt` | platforms/douyu/stt.cpp:26-47 | the packet: length twice, type, text up to its first NUL, zeros |
| `Douyu.PacketOnTheWire` | platforms/douyu/stt.cpp:26-47 | a packet byte by byte: its length twice, least significant byte first, the type 689, the text and a NUL |
| `Douyu.TextOnTheWire` | platforms/douyu/stt.cpp:26-36 | the text in letters: `key@=value/` for each pair |
| `Douyu.HeaderOnTheWire` | platforms/douyu/douyu.cpp:95-110 | from the bytes of a header: the first four, least significant first, less 8, in 32 bits |
| `Douyu.ParseStt` | platforms/douyu/stt.cpp:10-25 | the token loop binds what each token says unless the key is bound already |
| `Douyu.TokensBetweenSlashes` | platforms/douyu/stt.cpp:10-25 | a message is split at its slashes, and empty pieces are dropped |
| `Douyu.WhatTokensSay` | platforms/douyu/stt.cpp:13-23 | a token binds what is before its first "@=" to what is behind it, unless that is bound already; a token without one says nothing |
| `Douyu.StrCpy` | platforms/douyu/stt.cpp:45 | copies up to the first NUL, writes one NUL, and nothing behind it |
| `Bilibili.Receive` | platforms/bilibili/bilibili.cpp:300-377 | however the packets arrive, exactly the wanted bodies (not empty, operation byte 5) up to and including the first that is not JSON are delivered, in order; so all of them exactly if all but perhaps the last are JSON; at a body that is not, the reader closes |
| `Bilibili.PacketsAreCut` | platforms/bilibili/bilibili.cpp:324-377 | any stream of packets, with anything behind it, is cut at packet boundaries, up to the first wanted body that is not JSON |
| `Bilibili.AllDelivered` | platforms/bilibili/bilibili.cpp:359-377 | stopping at the first body that is not JSON loses nothing exactly if all bodies but perhaps the last are JSON |
| `Bilibili.CutMore` | platforms/bilibili/bilibili.cpp:300-322 | cutting a stream as it arrives is cutting it as a whole |
| `Bilibili.Reader.Feed` | platforms/bilibili/bilibili.cpp:300-377 | header, body and skip reads follow one another as far as the input goes, and stop for good at a body that is not JSON |
| `Bilibili.NewRequestPacket` | platforms/bilibili/bilibili.cpp:188-230 | the packet with operation 7 around the request, which holds the id of the room as given and the decimal number of the user |
| `Bilibili.PacketOnTheWire` | platforms/bilibili/bilibili.cpp:204-230 | a packet byte by byte: length and operation most significant byte first, and the constants between them |
| `Bilibili.HeaderOnTheWire` | platforms/bilibili/bilibili.cpp:333-357 | from the bytes of a header: the first four, most significant first, are the length of the whole; the twelfth is 5 if the body is wanted |
| `Bilibili.RequestOnTheWire` | platforms/bilibili/bilibili.cpp:204-206 | the request in letters |
| `Bilibili.RequestIsJson` | platforms/bilibili/bilibili.cpp:204-206 | if the id of the room is the text of a JSON value, the request is the text of an object with that value and the user's number |

## Left out

- HashMap.InnerMap.DropAll: the destruction of nodes and trees, arenas and allocators are not modelled; a node that is gone from the table is simply not live any more.
- HashMap.InnerMap.Erase: memory is kept per table as a table of entries, a map from nodes to `next`, to values, and from trees to their nodes, so that two tables never alias; `std::set` is a sequence in key order.
- HashMap.Run: the cap at `max_size` (2^60 buckets) is in the load bound, but sizes are not wrapped at 64 bits.
- JsonValue.StrictTotalOrder: doubles are real numbers and the two infinities; NaN, which is not equal to itself, is not modelled.
- JsonPrinter.RoundTrip: finite doubles are covered as far as printing and `strtod` bring them back (a hypothesis on each double in the value); the text of `%.17g` itself is not part of this model.
- JsonParser.Parse: which error is reported is not stated, only that one is, and that the first stays; the caller's string is taken to be empty before the call.
- JsonParser.Parser.ParseNumber: the locale of `strtod` is not modelled.
- Base64.Encode: lengths are not cut to 32 bits, and `isalnum` is that of the C locale.
- Masking.MaskStream: big-endian machines and 32-bit words.
- FrameHeader.HeaderBack: sizes of 2^63 and more, which RFC 6455 forbids, are written and read like any other, as in the code.
- Registry.EveryRun: the step of a platform that closes is allowed for any room at any time, and a connection may go on after it has closed; both are more than can happen. Locks, and callbacks that would wait for a lock they hold, are not modelled.
- Registry.Server.OnServerMessage: replies to badly named rooms and unknown platforms are not modelled; they change nothing in the registry.
- Douyu.Reader.Feed: socket errors and what the message handlers do with the pairs; a header that announces no body makes the handler throw, and the model stops there.
- Bilibili.Reader.Feed: socket errors, and what is looked up in the JSON of a body; the read of a header that is already under way when the socket is closed is taken to fail.
- MapEntry.FastParser.MergePartial: the input is a sequence of fields, each whole or corrupt; `CodedInputStream` and the type handlers are not modelled below that.
- Sockets, resolvers, timers, heartbeats, threads and the set-up of `io_service`: plumbing without an algorithm.
- The YY and huajiao platforms: they need XML, generated protobuf messages, RC4, MD5 and random data that are not part of this model.
- `utils/gzip.cpp`, `utils/rc4.cpp`, `utils/md5.cpp`: wrappers over zlib and OpenSSL.
- `Json` accessors, shape checking, and the connection and endpoint classes of websocketpp: declarations, setters and one-line getters.
