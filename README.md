# infyJSON core in Dafny

A model of the three pieces that make up the infyJSON library:

- **The parser** (`Parser.cpp`). A byte cursor (`_pos`, `_eof`) moves over an in-memory buffer, and a recursive-descent parser reads one JSON value from it.
  - `grammar.dfy` (module `Grammar`) defines every scanner step and every production as a function of the text and a cursor position.
  - `parser.dfy` (module `Parser`) has the imperative code: a `Parser` class with the cursor fields, and one method per C++ function (`get`, `getFirstNonSpaceChar`, `getBasicValueBorders`, `isWord`, `isNumber`, `isString`, `readMap`, `readArray`, `readKeyValue`, `parse`, `parseFromString`). Each method is proved to compute its `Grammar` definition.
  - `documents.dfy` (module `Documents`) states how the parser behaves on edge cases: repeated keys, trailing commas, missing separators, trailing bytes, unterminated strings, truncated literals and control bytes.
- **The value model** (`Value.h`, the accessors of `Value.cpp`), in `value.dfy` (module `Json`).
  - The `std::variant` of six boxed alternatives becomes the datatype `Data`.
  - A `Value` is a class whose one mutable field holds a `Data`. It has `is`, `getAs`, `emplace`, the converting constructor and `operator=`, `==` / `!=`, `hasKey`, and the const and non-const `operator[]`.
  - `HeapObject<T>`, the owning box, is a generic class over an optional pointee.
- **The serializer** (`Value::write`), in `serializer.dfy` (module `Serializer`).
  - The method follows the loop as written: entries are appended with a trailing comma, and then `result.back()` is overwritten with the closing bracket.
  - An `unordered_map` is iterated in no specified order, so `write` also returns the key order it used (a `Layout`).
  - `roundtrip.dfy` (module `RoundTrip`) proves that parsing the serialization of a value gives the value back. The value's strings must be raw text the scanner reads back, and its numbers must be printed as text that the number parser reads back.

Doubles are an abstract type. `std::from_chars`, `std::to_string` and IEEE equality of doubles are parameters (`fromChars`, `toText`, `eq`).

## Model

| member | source | states |
|---|---|---|
| Json.AlternativeOf | Value.h:116 | the alternative reported for a value is one the value holds |
| Json.Equal | Value.cpp:13-16 | structurally equal values hold the same alternative; on null, strings and booleans equality is exactly identity of the data |
| Json.Converted | Value.h:166-179 | a non-bool arithmetic argument becomes a Number holding the double, a `char*` a String, a bool a Boolean, another Value's data is taken as is |
| Json.EqualIsIdentity | Value.cpp:13-16 | when doubles compare by identity, structural equality (same alternative, equal contents, objects as maps regardless of key order) holds exactly for identical trees |
| Json.EqualSymmetric | Value.cpp:13-16 | structural equality is symmetric whenever double equality is |
| Json.WithKey | Value.cpp:38-44 | the result is an Object holding the key; its keys are the old keys plus the key; old entries are unchanged; a new key holds Empty |
| Json.WithIndex | Value.cpp:27-36 | the result is an Array longer than the index; its length is the old one or index + 1; old elements are unchanged and the padding is Empty |
| Json.AutoVivification | Value.cpp:27-44 | indexing a fresh value by two keys gives an object with both keys holding Empty; indexing by 3 gives four Empty elements |
| Json.VivifyIdempotent | Value.cpp:27-44 | a second non-const `operator[]` with the same key or index, also after an assignment through the first, leaves the value unchanged |
| Json.SetKey | Value.cpp:38-44 | `v[key] = x` leaves an Object with the old keys plus the key, the key holding x and every other entry unchanged |
| Json.SetIndex | Value.cpp:27-36 | `v[index] = x` leaves an Array as long as the vivified one, x at the index and every other element as after vivification |
| Json.NaNIsEqualAndUnequalToItself | Value.cpp:13-20 | a Value directly holding NaN is, as written, both `==` and `!=` to itself; the corrected `!=` is false |
| Json.NestedNaNNotUnequalToItself | Value.cpp:13-20 | a Value holding an array with a NaN is `==` to itself and, as written, not `!=` to itself, although its data is not structurally equal to itself |
| Json.NotEqualsDisagreement | Value.cpp:13-20 | the as-written and the corrected `!=` disagree exactly on a Value compared with itself that directly holds a double unequal to itself |
| Json.Value.constructor | Value.h:118 | a default-constructed Value holds Empty |
| Json.Value.From | Value.h:166-179 | the constructed Value holds the converted argument |
| Json.Value.Is | Value.h:116 | true exactly when the held alternative is the one asked for |
| Json.Value.AsObject | Value.h:197-205 | defined only on an Object; returns exactly its members |
| Json.Value.AsArray | Value.h:197-205 | defined only on an Array; returns exactly its elements |
| Json.Value.AsString | Value.h:197-205 | defined only on a String; returns exactly its text |
| Json.Value.AsNumber | Value.h:197-205 | defined only on a Number; returns exactly its double |
| Json.Value.AsBoolean | Value.h:197-205 | defined only on a Boolean; returns exactly its flag |
| Json.Value.Emplace | Value.h:207-210 | the new alternative replaces whatever was held |
| Json.Value.Assign | Value.h:187-192 | after assigning a non-Value argument, the Value holds its conversion |
| Json.Value.AssignValue | Value.h:183-186 | the target holds the source's old data; the source is unchanged when it is another object; self-assignment changes nothing |
| Json.Value.Equals | Value.cpp:13-16 | identical objects are equal; otherwise the result is structural equality |
| Json.Value.NotEquals | Value.cpp:18-20 | as written: on distinct objects the negation of structural equality; on an object compared with itself true only for a directly held double unequal to itself, because nested boxes go through `Value::operator==` and its identity shortcut |
| Json.Value.NotEqualsCorrected | Value.cpp:18-20 | the negation of `==`; it agrees with the as-written `!=` on distinct objects |
| Json.Value.HasKey | Value.cpp:22-25 | true exactly when the value is an Object containing the key |
| Json.Value.AtKey | Value.cpp:46-55 | the stored entry when the key is present in an Object, otherwise the shared null sentinel |
| Json.Value.At | Value.cpp:57-66 | the element when an Array has the index, otherwise the shared null sentinel |
| Json.Value.IndexKey | Value.cpp:38-44 | the new data is the old data with the key vivified; the returned entry is the one stored under the key |
| Json.Value.Index | Value.cpp:27-36 | the padding loop leaves the old data with the index vivified; the returned element is the one at the index |
| Json.Value.AssignAtKey | Value.cpp:38-44 | assignment through the reference the keyed accessor returns: the new data is SetKey of the old |
| Json.Value.AssignAtIndex | Value.cpp:27-36 | assignment through the reference the indexed accessor returns: the new data is SetIndex of the old |
| Json.HeapObject.constructor | Value.h:20 | a default box owns a value-initialised pointee, never null |
| Json.HeapObject.Null | Value.h:46 | a box built from nullptr owns nothing |
| Json.HeapObject.Copy | Value.h:28-29 | the copy owns an equal pointee |
| Json.HeapObject.Move | Value.h:30-31 | the pointee changes owner and the source is left null |
| Json.HeapObject.CopyAssign | Value.h:53-54 | the target owns a copy of the source's pointee; the source is unchanged |
| Json.HeapObject.MoveAssign | Value.h:55-56 | the target owns the source's pointee; a distinct source is left null |
| Json.HeapObject.AssignPointee | Value.h:58-59 | a plain value overwrites the pointee in place |
| Json.HeapObject.Reset | Value.h:64-67 | assigning nullptr leaves the box null |
| Json.HeapObject.Equals | Value.h:87-89 | compares the pointees with T's own `==`, not the addresses; a box compared with itself is equal exactly when its pointee is equal to itself |
| Json.HeapObject.NotEquals | Value.h:91-93 | compares the pointees with T's own `!=` |
| Json.BoxNotEqualsNegatesEquals | Value.h:87-93 | when T's `!=` negates its `==`, so does the box's |
| Json.NaNBoxUnequalToItself | Value.h:87-93 | a box owning NaN is not `==` and is `!=` to itself |
| Grammar.SkipBlanks | Parser.cpp:151-158 | the byte returned sits just before the new cursor, which has advanced; it is not blank unless the input ran out |
| Grammar.SkipBlanksSkipsBlanks | Parser.cpp:141-158 | every byte skipped is a space, tab, CR or LF |
| Grammar.ClosingQuote | Parser.cpp:100 | the scan stops at a quote or at the end of the input |
| Grammar.QuoteCheck | Parser.cpp:76-85 | the finder reports a quote exactly when it is not escaped, and is escaped afterwards exactly after an unescaped backslash |
| Grammar.StringSpanStops | Parser.cpp:91-110 | the span runs from the cursor to the first quote after an even run of backslashes, or to the end; the cursor is one past it; the span is rejected exactly when it holds a control byte |
| Grammar.NumberSpanRun | Parser.cpp:111-126 | the span starts at the trigger byte, is the longest run of number bytes, and the cursor stops at its end |
| Grammar.WordValueSpelled | Parser.cpp:208-238 | a word succeeds exactly on the bytes of null, true or false, and yields the value it spells with the cursor just past it |
| Grammar.NumberValueSpan | Parser.cpp:240-249 | a number succeeds exactly after a digit or `-` when from_chars reads the whole run of number bytes; the value is what it read |
| Grammar.BlankDocumentFails | Parser.cpp:406-450 | an input of blanks only, empty or not, has no value |
| Grammar.ClosingQuoteParity | Parser.cpp:73-86 | a quote ends the string exactly when the run of backslashes before it is even; the scan stops at the first such quote or at the end |
| Grammar.NumberEnd | Parser.cpp:113-120 | the number span ends at the first byte that is not a digit or one of `.eE+-`, or at the end |
| Grammar.NumberEndRun | Parser.cpp:113-120 | every byte of the number span is a digit or one of `.eE+-` |
| Grammar.StringToken | Parser.cpp:304-314 | a key token moves the cursor forward, at most one past the end |
| Grammar.StringValue | Parser.cpp:304-314 | a string moves the cursor forward, at most one past the end |
| Grammar.ScalarValue | Parser.cpp:419 | a scalar leaves the cursor within the input or one past it |
| Grammar.ParseValue | Parser.cpp:393-399 | the dispatch on the first byte never moves the cursor backwards |
| Grammar.ParseObject | Parser.cpp:318-340 | a parsed object moves the cursor strictly forward, which bounds the recursion |
| Grammar.ObjectMembers | Parser.cpp:327-339 | every pass of the member loop moves the cursor strictly forward |
| Grammar.MembersAfter | Parser.cpp:332-338 | the separator step moves the cursor strictly forward |
| Grammar.KeyValue | Parser.cpp:381-403 | a key-value pair moves the cursor strictly forward |
| Grammar.ParseArray | Parser.cpp:342-379 | a parsed array moves the cursor strictly forward |
| Grammar.ArrayElements | Parser.cpp:352-378 | every pass of the element loop moves the cursor strictly forward |
| Parser.QuoteFinder.constructor | Parser.cpp:74 | the finder starts outside an escape |
| Parser.QuoteFinder.Check | Parser.cpp:76-85 | a backslash toggles the escape state; an unescaped quote is found; any other byte clears the escape state |
| Parser.Parser.constructor | Parser.cpp:441-445 | the cursor is at the first byte of a non-empty buffer and EOF is clear |
| Parser.Parser.Get | Parser.cpp:55-67 | returns the byte at the cursor and advances by exactly one; EOF is set exactly when the cursor reaches the end |
| Parser.Parser.IsEOF | Parser.cpp:69-71 | EOF is true exactly when the cursor is at or past the end |
| Parser.Parser.FirstNonSpace | Parser.cpp:151-158 | the skipping loop computes SkipBlanks, keeping the cursor invariant |
| Parser.Parser.StringBorders | Parser.cpp:91-110 | the span runs from the cursor to the closing quote, or to the end when it is missing, and is null when a byte 0x00-0x1F was scanned; the cursor ends one past the quote; EOF is set when the quote is the last byte or missing |
| Parser.Parser.NumberBorders | Parser.cpp:111-126 | the span includes the trigger byte and is the maximal run of number bytes; the cursor stops after it |
| Parser.Parser.IsWord | Parser.cpp:208-238 | reads exactly 3 more bytes after `n`/`t` and 4 after `f`; fails at EOF; only null, true and false succeed; other bytes leave the cursor alone |
| Parser.Parser.IsNumber | Parser.cpp:240-249 | succeeds only after a digit or `-` when from_chars takes in the whole span |
| Parser.Parser.IsString | Parser.cpp:304-314 | succeeds only after a quote and a span without control bytes; the value is the raw bytes between the quotes |
| Parser.Parser.ReadScalar | Parser.cpp:419 | string, then word, then number, as the grammar says |
| Parser.Parser.ReadValue | Parser.cpp:393-399 | `{` reads an object, `[` an array, anything else a scalar |
| Parser.Parser.ReadMap | Parser.cpp:318-340 | the member loop computes ParseObject: `}` ends, `,` continues, anything else or EOF fails |
| Parser.Parser.ReadArray | Parser.cpp:342-379 | the element loop computes ParseArray: `]` ends, `,` continues, anything else or EOF fails |
| Parser.Parser.ReadKeyValue | Parser.cpp:381-403 | a string key, `:`, a value; try_emplace keeps an existing key's value |
| Parser.Parser.Parse | Parser.cpp:406-424 | dispatches on the first significant byte; the result is the grammar's |
| Parser.ParseFromString | Parser.cpp:441-450 | no value for an empty input or a failed production; otherwise the value built from the first significant byte |
| Documents.KeyValueKeepsEntries | Parser.cpp:381-403 | a pair adds exactly its key to the members read so far, stores the value parsed after the colon under a new key, and never overwrites an existing entry |
| Documents.ObjectMembersKeepFirst | Parser.cpp:327-339 | whatever follows, the members already read keep their values, so a repeated key keeps its first value |
| Documents.MembersAfterKeepFirst | Parser.cpp:332-338 | the same from a separator on |
| Documents.EmptyContainersParse | Parser.cpp:318-350 | `{ }` and `[` CR LF `]` parse to the empty object and array |
| Documents.TrailingCommaInArrayFails | Parser.cpp:370-377 | `[true,]` is rejected |
| Documents.TrailingCommaInObjectFails | Parser.cpp:332-338 | `{"a":null,}` is rejected: a member must start with a quote |
| Documents.MissingSeparatorFails | Parser.cpp:370-376 | `[true false]` and `[true` are rejected |
| Documents.TrailingBytesIgnored | Parser.cpp:406-424 | `true}` and `[] x` parse; bytes after the first value are not examined |
| Documents.UnterminatedStringAccepted | Parser.cpp:100-109 | a top-level string missing its closing quote runs to the end and is accepted |
| Documents.TruncatedWordFails | Parser.cpp:208-238 | `nul` and `fals` are rejected at EOF |
| Documents.StringContents | Parser.cpp:93-109 | a raw tab inside a string is rejected; an escaped quote does not end the string and is kept as written |
| Documents.EmptyInputFails | Parser.cpp:441-450 | an empty input has no value |
| Serializer.CloseWith | Value.cpp:91 | `result.back() = c`: same length, same prefix, last byte replaced |
| Serializer.Write | Value.cpp:68-105 | as written: appends the rendering with a comma after every entry and the last byte overwritten by the closing bracket, for the key order it visited |
| Serializer.WriteObject | Value.cpp:84-92 | the key loop visits every key exactly once and appends `"key":value,` for each; then `}` overwrites the last byte |
| Serializer.WriteArray | Value.cpp:93-100 | the element loop appends `value,` for each element; then `]` overwrites the last byte |
| Serializer.WrittenClosed | Value.cpp:84-100 | a container is always written ending with its closing bracket, and starting with its opening bracket when it is not empty |
| Serializer.SerializedBracketed | Value.cpp:68-105 | the intended rendering puts every container between its brackets and every string between quotes |
| Serializer.EmptyObjectWritten | Value.cpp:84-92 | an empty object is written as a lone `}` |
| Serializer.EmptyArrayWritten | Value.cpp:93-100 | an empty array is written as a lone `]` |
| Serializer.ClosersDoNotParse | Parser.cpp:406-424 | neither `}` nor `]` parses as a document |
| Serializer.EmptyContainersWrittenUnbalanced | Value.cpp:84-100 | empty containers are written as a lone closing bracket, which does not parse back |
| Serializer.WrittenIsSerialized | Value.cpp:84-100 | without empty containers, the as-written text is the intended comma-joined rendering |
| Serializer.WrittenObjectIsSerialized | Value.cpp:84-92 | the same for a non-empty object |
| Serializer.WrittenArrayIsSerialized | Value.cpp:93-100 | the same for a non-empty array |
| RoundTrip.StringRoundTrip | Parser.cpp:91-110 | raw string content is scanned back exactly up to the quote written after it |
| RoundTrip.WordRoundTrip | Parser.cpp:208-238 | `null`, `true` and `false` read back as Empty, true and false |
| RoundTrip.QuotedRoundTrip | Value.cpp:75-76 | a string written between quotes without escaping reads back as itself |
| RoundTrip.NumberRoundTrip | Parser.cpp:240-249 | a number text that from_chars reads back gives the same double |
| RoundTrip.ValueRoundTrip | Parser.cpp:318-403 | a serialized value read from its first byte parses to itself, leaving the cursor just past it |
| RoundTrip.RoundTrip | Value.cpp:68-105 | parseFromString of the intended serialization gives the value back, for any key order |
| RoundTrip.WrittenRoundTrip | Value.cpp:68-105 | the same for the text `write` produces, when no container is empty |

## Left out

- File input (`_parser::init`, `parseFromFile`): `ifstream` I/O. The model starts from an in-memory string, one `char` per byte.
- Debug diagnostics (`INFYJSON_DEBUG`, `_lastReadLine`, `_lineNumber`, `getLastReadLine`, `getDebugInfo`): they observe the cursor and do not change any outcome.
- The commented-out `_hexToInt` and `isEscaped`: dead code.
- The `_json` literal operator: it has the same body as `parseFromString`.
- `std::from_chars`, `std::to_string` and IEEE comparison of doubles: floating-point library code, passed in as functions. An out-of-range number that `from_chars` reports with its end pointer at the end of the span is accepted by the source as 0.0: `isNumber` emplaces a value-initialised double first, and `from_chars` leaves it untouched on a range error. The model covers this only in that `fromChars` may return any double.
- `shrink_to_fit`, `copy_cv_reference`, the variadic and perfect-forwarding `HeapObject` constructors, and `HeapObject`'s `*`, `->` and `[]`: C++ plumbing with no effect on values.
- The `bad_variant_access` thrown by `getAs` on the wrong alternative: modelled as a precondition. The unreachable `throw` in `write` is also absent, because every alternative is handled.
- The global cursor state: it becomes the fields of one `Parser` object per parse. Re-entrancy is not modelled.
- The iteration order of `unordered_map`: `write` picks keys in an order of its own choosing and reports it as a ghost `Layout`. No particular order is asserted.
- Boxing inside `Value`: the alternatives of a `Value` are plain values in `Data`. Only the standalone `HeapObject` class models ownership, copy and move.
- Parser.Parser.ReadMap: on failure the partly built object and the cursor are left unconstrained; the source discards both.
- Parser.Parser.ReadArray: on failure the partly built array and the cursor are left unconstrained; the source discards both.
- Parser.Parser.ReadKeyValue: on failure the members and the cursor are left unconstrained; the source discards both.
- Parser.Parser.IsWord: for `null`, `isWord` leaves its target untouched. The model returns Empty, which is what every caller passes in.
- Json.Value.Emplace: takes the constructed alternative, not the constructor arguments.
- Json.HeapObject.constructor: the value-initialised `T` is passed in as a parameter.
- Json.HeapObject.Equals, Json.HeapObject.NotEquals: T's `==` and `!=` are passed in as functions of the two pointees, so a `T` whose operators read other objects (a `Value` with its identity shortcut) is not covered.
- Json.Value.IndexKey, Json.Value.Index: the source returns a reference into the held container; the model returns a copy of the entry. A single assignment through that reference is modelled by Json.Value.AssignAtKey and Json.Value.AssignAtIndex; a reference kept and written later, or a chain such as `v[a][b] = x`, is not.
- Repeated keys: `try_emplace` keeps the first value stored under a key, and so does the model.
- RoundTrip.RoundTrip: covers only values whose strings need no escaping and whose numbers print as text that the number parser reads back, because `write` does not escape and `to_string` may round.

## Findings

| source | as written | input that shows it | evidently intended | confidence | as-written member | corrected member |
|---|---|---|---|---|---|---|
| Value.cpp:84-100 | `result.back()` overwrites the last byte even when no entry was written, so the opening bracket itself is replaced | an empty object or array: `write` appends only `}` or `]`, which does not parse | `{}` and `[]` | not executed; high | Serializer.EmptyContainersWrittenUnbalanced | RoundTrip.RoundTrip |
| Value.cpp:18-20 | `operator!=` compares the variants directly, so the identity shortcut of `operator==` is skipped at the top level (nested boxes still compare through `Value::operator==`, which takes it) | a Value directly holding NaN compared with itself: `v == v` and `v != v` are both true | `!=` as the negation of `==` | not executed; medium | Json.NaNIsEqualAndUnequalToItself | Json.Value.NotEqualsCorrected |
