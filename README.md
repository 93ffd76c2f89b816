# liondb command pipeline in Dafny

liondb is a small in-memory database. A client sends one line of text,
for example `NEW car:1 name 'bmw'`, `GET car[2:9]` or `DEL car:1`. The
server then:

1. **Parses the line** into an operation word, an entity name, an id
   address and typed attributes (`parser.go`).
2. **Looks up the entity's record store**, creating it the first time the
   name is seen (`engine.go`).
3. **Runs the operation on that store.** The store is ordered by record id
   (`storage.go`). Records carry attributes with typed accessors
   (`data.go`).
4. **Replies** with `1`, `0`, an error text, or the serialized records
   (`serializer.go`).

The older replace-or-insert store of the engine package
(`engine/storage.go`) is modelled beside the current one.

One module per source file:

| file | module | models |
|---|---|---|
| `wrappers.dfy` | `Wrappers` | `Option` and `Result` |
| `gotext.dfy` | `GoText` | what the code uses from Go's `strings` and `strconv`: `Split` fields, `ReplaceAll`, ASCII `ToUpper`, `Itoa`, `Atoi` on int64, and which texts `ParseFloat` accepts |
| `data.dfy` | `StorageData` | `Data`, `GetInt`/`SetInt` and their two error kinds |
| `ordered_index.dfy` | `OrderedIndex` | the B-tree, as an increasing sequence of distinct ids |
| `storage.dfy` | `RecordStore` | `storage.Storage`: a class whose methods update `records: map<nat, Record>` and `ids: seq<nat>` in place |
| `engine_storage.dfy` | `EngineStorage` | the older `engine.Storage` |
| `parser.dfy` | `Parser` | the tokenizer (the regular expression written as a scanner), the address and attribute stages, `ParseCommand` |
| `serializer.dfy` | `Serializer` | `SerializeValue` and `SerializeRecord` |
| `engine.dfy` | `Engine` | the reply each operation gives, as a specification; the registry class `Database` with `messageHandler` and the operations |
| `scenarios.dfy` | `Scenarios` | the insert / get / delete exchanges of the engine tests, run through the full pipeline |

**Engine specification.**
- `Engine.Outcome` states the reply an operation gives and the entity's records afterwards.
- `Engine.Handles` lifts that to the whole registry, a map from entity name to records.
- `Database.MessageHandler` is proved to satisfy `Handles` between the registry before and after the call.

**Map iteration order.** Go ranges over a map in no fixed order. `SerializeRecord` and the merge loop of `UpdateRecord` pick the next key with `:|`. Their contracts hold for every order:
- a serialization is the record rendered in some order that lists each key once (`Serializer.Serializes`);
- a merge is the same map whatever the order.

**Panics become preconditions.** Where the Go code panics, the model requires that the panic does not happen:
- a bracket address whose text has no `:` and is empty or a valid id, such as `e[]` or `e[5]` (a text such as `e[abc]` or `e[0]` fails its first bound and becomes address 0,0 without reaching the second);
- a nil attribute map reaching `UpdateRecord` or `SerializeRecord`.

These preconditions are `Parser.ParseDefined`, `RecordStore.UpdateDefined`, `Engine.ListingDefined`, `Engine.OperationDefined` and `Engine.Defined`.

## Model

| member | source | states |
|---|---|---|
| GoText.IndexOf | internal/database/parser/parser.go:74-77 | position of the first occurrence of a character, or the length when it is absent; nothing before it matches |
| GoText.Before | internal/database/parser/parser.go:77-78 | field 0 of `strings.Split`: a prefix of the text holding no separator, the whole text when there is none |
| GoText.Second | internal/database/parser/parser.go:87 | field 1 of `strings.Split`, defined only when the separator occurs; it holds no separator |
| GoText.RemoveAll | internal/database/parser/parser.go:88-89 | `strings.ReplaceAll(s, c, "")`: no `c` is left, text without `c` is unchanged, never longer |
| GoText.RemoveAllAppend | internal/database/parser/parser.go:88-89 | removing a character distributes over concatenation |
| GoText.ToUpper | internal/database/parser/parser.go:57 | same length, each character upper-cased (ASCII letters) |
| GoText.Itoa | internal/database/engine/serializer.go:44 | a non-empty decimal text, with a leading `-` exactly for negative numbers |
| GoText.Atoi | internal/database/parser/parser.go:116 | succeeds exactly when the text after an optional `+`/`-` is a non-empty digit run whose signed value lies in the int64 range, and then returns that signed value |
| GoText.AtoiItoa | internal/database/parser/parser.go:152-154 | `Atoi(Itoa(n)) == n` for every int64 `n` |
| GoText.IntegerIsFloatLiteral | internal/database/parser/parser.go:152-160 | every integer `Atoi` accepts is also a float literal, so the int case must be tried first |
| GoText.IsFloatLiteral | internal/database/parser/parser.go:157-160 | the texts `strconv.ParseFloat` accepts: an optionally signed decimal mantissa with at least one digit and an optional exponent, or `inf`/`infinity`/`nan` in any case |
| GoText.FloatLiteralStart | internal/database/parser/parser.go:140-160 | a float literal is non-empty and starts with a sign, a digit, a point or `i`/`n`, never with a quote |
| StorageData.GetInt | internal/database/storage/data.go:26-39 | the stored int and no error exactly when the key holds an int; `KeyNotFound` exactly when the key is absent; `IncorrectKeyType(key, "int")` exactly when it holds another type; 0 on every error |
| StorageData.Message | internal/database/storage/data.go:16-22 | both error texts start with `Key: '<key>'`, and the length alone tells the kinds apart, so they never coincide |
| StorageData.SetInt | internal/database/storage/data.go:41-43 | afterwards `GetInt` of the key returns the value with no error, the key set gains the key, and every other key is unchanged |
| StorageData.Wrap64 | internal/database/storage/storage_test.go:140 | Go's 64-bit `int` addition: the result lies in the int64 range, equals the exact sum when that is in range, and differs from it by a multiple of 2^64 |
| StorageData.IncrementsAccumulate | internal/database/storage/storage_test.go:116-157 | `n` read-increment-write steps, one after another, on an int attribute add `n` in 64-bit wrap-around arithmetic, which is exactly `n` while the sum stays within int64; they keep the key set and change no other key |
| OrderedIndex.Insert | internal/database/storage/storage.go:62 | the id sequence stays strictly increasing; its members are the old ones plus the id; it grows by one exactly when the id was new |
| OrderedIndex.Remove | internal/database/storage/storage.go:80 | stays strictly increasing; the id alone is removed; it shrinks by one exactly when the id was present |
| OrderedIndex.CountIsSize | internal/database/storage/storage.go:83-85 | an increasing id sequence is as long as the key set it lists |
| OrderedIndex.IncreasingUnique | internal/database/storage/storage.go:29-31 | two increasing sequences with the same members are equal, so the traversal order is fixed by the keys |
| OrderedIndex.MinOf | internal/database/storage/storage.go:29-31 | the least id of a non-empty key set |
| OrderedIndex.SortedIds | internal/database/storage/storage.go:49-52 | the key set as a strictly increasing sequence |
| RecordStore.AscendingLists | internal/database/storage/storage.go:49-53 | the ascending traversal (the records listed in the order of `SortedIds`) lists every stored record once, nothing else, in strictly increasing id order |
| RecordStore.IndexIsAscending | internal/database/storage/storage.go:19 | the id sequence kept beside the map lists the records in ascending traversal order |
| RecordStore.Less | internal/database/storage/storage.go:29-31 | `lessFunc`: records are ordered by id alone |
| RecordStore.VisitUntil | internal/database/storage/storage.go:37-39 | what a B-tree `Ascend` hands its callback: the records in order, up to and including the first it rejects |
| RecordStore.VisitUntilShape | internal/database/storage/storage.go:37-39 | a traversal with a callback hands over a prefix of the records; it stops only after a record the callback rejects; an always-true callback sees all records |
| RecordStore.TraversalOrder | internal/database/storage/storage.go:41-55 | a full listing in either direction (the ascending one or its `Reverse`) has one entry per record, strictly ascending or strictly descending by id |
| RecordStore.Merge | internal/database/storage/storage.go:73-75 | incoming keys overwrite, other saved keys keep their values, and the key set is the union |
| RecordStore.MergeInto | internal/database/storage/storage.go:71-76 | a saved map receives the merge of the incoming attributes; a nil saved map stays nil, which is only reached with nothing to write |
| RecordStore.Storage.constructor | internal/database/storage/storage.go:22-27 | a new store is empty and carries its name |
| RecordStore.Storage.GetRecord | internal/database/storage/storage.go:33-35 | found exactly when a record with the id is stored, and then it is that record |
| RecordStore.Storage.IterateOverRecords | internal/database/storage/storage.go:37-39 | the callback sees the records in ascending id order, up to and including the first it rejects |
| RecordStore.Storage.GetAllRecords | internal/database/storage/storage.go:41-55 | the ascending traversal, or its reverse when `descend`; as many records as the store holds, strictly ordered by id |
| RecordStore.Storage.InsertRecord | internal/database/storage/storage.go:57-64 | true exactly when the id was absent; the record is then added and nothing else changes; otherwise the store is unchanged |
| RecordStore.Storage.UpdateRecord | internal/database/storage/storage.go:66-77 | true exactly when the id is present; that record's attributes become the merge of the incoming ones into the saved ones; no other record changes; an absent id changes nothing |
| RecordStore.Storage.DeleteRecord | internal/database/storage/storage.go:79-81 | returns the removed record exactly when the id was present; afterwards the id is absent and every other record is kept |
| RecordStore.Storage.Len | internal/database/storage/storage.go:83-85 | the number of stored records |
| EngineStorage.Storage.constructor | internal/database/engine/storage.go:28-35 | a new store is empty and carries its name |
| EngineStorage.Storage.InsertOrUpdateRecord | internal/database/engine/storage.go:37-39 | the record replaces whatever was under its id, whole; the displaced record is returned exactly when there was one |
| EngineStorage.Storage.GetRecord | internal/database/engine/storage.go:41-43 | found exactly when the id is stored, and then it is that record |
| EngineStorage.Storage.IterateOverRecords | internal/database/engine/storage.go:45-47 | the callback sees the records in ascending id order, up to the first it rejects |
| EngineStorage.Storage.DeleteRecord | internal/database/engine/storage.go:49-51 | the removed record comes back exactly when the id was present; afterwards it is absent |
| EngineStorage.Storage.Len | internal/database/engine/storage.go:53-55 | the number of stored records |
| EngineStorage.RecordLess | internal/database/engine/storage.go:20-26 | the older `Record.Less`: records are ordered by id alone |
| EngineStorage.VisitAllCountsLen | internal/database/engine/storage.go:45-55 | an always-true traversal visits every record, as many as `Len` counts, in ascending id order |
| Parser.WordLength | internal/database/parser/parser.go:13 | the longest run of non-space, non-quote characters at the front |
| Parser.Tokens | internal/database/parser/parser.go:13 | the matches of the regular expression, in order; every token is a bare word or a quoted run closed by its own quote. What it does at each position is stated by `TokensOfSpaceThen`, `TokensOfUnclosedQuote`, `TokensOfQuotedThen` and `TokensOfWordThen`, which between them cover every first character |
| Parser.TokensOfWordThen | internal/database/parser/parser.go:13 | a bare word followed by a space, a quote or the end is one token |
| Parser.TokensOfQuotedThen | internal/database/parser/parser.go:13 | a quoted run is one token, spaces inside included |
| Parser.TokensOfSpaceThen | internal/database/parser/parser.go:13 | a leading space, tab, newline, form feed or carriage return is skipped |
| Parser.TokensOfUnclosedQuote | internal/database/parser/parser.go:13 | a quote with no partner after it starts no token; scanning resumes right after it |
| Parser.TokensOfJoin | internal/database/parser/parser.go:65 | tokenizing a space-joined line of bare and quoted tokens gives the tokens back |
| Parser.GetParts | internal/database/parser/parser.go:64-70 | succeeds exactly when there are at least two tokens, then returns them; else `invalid command` |
| Parser.GetEntity | internal/database/parser/parser.go:72-83 | the text before the first `[` when there is one, else before the first `:`; `invalid entity` exactly when that text is empty |
| Parser.ParseId | internal/database/parser/parser.go:111-121 | empty text is bound 0; otherwise an `Atoi` value of at least 1, or `invalid id format` exactly when there is none |
| Parser.GetIds | internal/database/parser/parser.go:85-109 | never an error; no `:` and no `[` gives 0,0; `e:N` with a parsable N gives N,N; `e[L:U]` with both bounds parsable gives L,U; a bad bound in either form gives 0,0; defined whenever Go does not panic |
| Parser.SingleAddressRoundTrip | internal/database/parser/parser.go:100-106 | `e:N` parses back to entity `e` and id N,N |
| Parser.RangeAddressRoundTrip | internal/database/parser/parser.go:86-99 | `e[L:U]`, with an empty side for a zero bound, parses back to `e` and L,U |
| Parser.AddressRoundTrip | internal/database/parser/parser.go:72-109 | every address a client can write for a plain entity name parses back to that entity and that id |
| Parser.Infer | internal/database/parser/parser.go:139-163 | a value starting with `'` is kept verbatim; else TRUE/FALSE in any case is a bool; else an int; else a float literal; else the token wrapped in quotes; never an unknown type |
| Parser.PairUpKeys | internal/database/parser/parser.go:133-135 | the attribute keys are exactly the tokens at even positions |
| Parser.PairUpLastWins | internal/database/parser/parser.go:133-135 | a key's value is inferred from the token after its last occurrence |
| Parser.PairUpTyped | internal/database/parser/parser.go:133-135 | no parsed attribute has an unknown type |
| Parser.PairUp | internal/database/parser/parser.go:132-135 | the attribute map built from key/value token pairs, later pairs overwriting earlier ones |
| Parser.DataOf | internal/database/parser/parser.go:123-137 | no tokens give nil data; an odd count exactly gives the unpaired-data error; otherwise a map |
| Parser.GetData | internal/database/parser/parser.go:123-137 | the pair-by-pair loop builds exactly `DataOf` |
| Parser.Parse | internal/database/parser/parser.go:35-62 | `ParseCommand` as a function: each stage's error prefixed with the stage's name, else the upper-cased operation, entity, address and data |
| Parser.ParseParts | internal/database/parser/parser.go:41-61 | the stages after tokenizing: entity, address, then data |
| Parser.PartsOutcome | internal/database/parser/parser.go:41-61 | after tokenizing, the parse fails on an empty entity or an odd attribute count, each with its stage's message, and succeeds otherwise |
| Parser.ParseOutcome | internal/database/parser/parser.go:35-54 | fewer than two tokens, an empty entity and unpaired attributes each fail with exactly their prefixed message |
| Parser.ParseOk | internal/database/parser/parser.go:35-62 | a command parses exactly when it has two tokens, a non-empty entity and an even count of tokens |
| Parser.ParseSuccess | internal/database/parser/parser.go:56-61 | the operation is the first token upper-cased, unchecked; the entity is non-empty; data is present exactly when attribute tokens follow, and then it is non-empty and fully typed |
| Parser.ParseCommand | internal/database/parser/parser.go:35-62 | the staged parse returns exactly `Parse`, whose properties are the lemmas above |
| Serializer.SerializeValue | internal/database/engine/serializer.go:37-53 | fails exactly for an unknown type, with `error serializing value`; a string is written verbatim; an int reads back through `Atoi`; a bool is `true`/`false` matching its value; a float is the formatter's text |
| Serializer.FormatBool | internal/database/engine/serializer.go:46 | `true` for true and `false` for false, nothing else |
| Serializer.SerializationMessage | internal/database/engine/serializer.go:16-18 | `Serialization error: ` followed by the cause's text unchanged |
| Serializer.Fields | internal/database/engine/serializer.go:24-33 | the ` key value` fields in a given key order; fails exactly when a visited value has an unknown type |
| Serializer.Render | internal/database/engine/serializer.go:20-35 | starts with `id ` and the decimal id; a failure is `Serialization error: error serializing value` |
| Serializer.SerializeRecord | internal/database/engine/serializer.go:20-35 | fails exactly when an attribute has an unknown type, with the wrapped message; otherwise writes the record in some order that lists every key once |
| Serializer.SerializesEmpty | internal/database/engine/serializer.go:22-23 | a record without attributes serializes to exactly `id N` |
| Serializer.SerializesSingle | internal/database/engine/serializer.go:24-34 | a record with one attribute serializes to exactly `id N key value` |
| Serializer.OnlyKeyOrder | internal/database/engine/serializer.go:24 | a one-key map can be visited in one order only |
| Serializer.KeyOrdersAgree | internal/database/engine/serializer.go:24 | every visiting order has one entry per attribute |
| Serializer.InferredRereadable | internal/database/parser/parser.go:139-163 | every non-float value the parser infers is one the serializer writes back in parseable form |
| Serializer.ValueRoundTrip | internal/database/engine/serializer.go:43-48 | inferring the serialized text of an int64, bool or quote-prefixed string gives the value back |
| Serializer.IntRoundTrip | internal/database/engine/serializer.go:44 | an int64 written by `Itoa` is inferred as that int |
| Serializer.BoolRoundTrip | internal/database/engine/serializer.go:46 | `true`/`false` are inferred as that bool |
| Serializer.InferSerializeInfer | internal/database/engine/serializer.go:37-53 | parse, serialize and parse again gives the first parse's value for every non-float token |
| Engine.TerminatedIsJoinedLines | internal/database/engine/engine.go:121-124 | dropping the last byte of the newline-terminated buffer leaves the texts joined by single newlines |
| Engine.JoinLines | internal/database/engine/engine.go:116-124 | the texts joined by single newlines, with none after the last |
| Engine.ListingReply | internal/database/engine/engine.go:110-125 | what an all-records GET may answer: `0` for no records, `Error deserializing data` when some record has an unknown-typed value, else one serialization per record in ascending order joined by newlines |
| Engine.RecordReply | internal/database/engine/engine.go:103-107 | what a single-record GET may answer for a stored record: one of its serializations, or the serialization error text |
| Engine.GetReply | internal/database/engine/engine.go:86-108 | the reply of `getRecords` for each address shape |
| Engine.Outcome | internal/database/engine/engine.go:41-141 | for each operation word, the reply and the entity's records afterwards: the id-shape checks, the `1`/`0` replies, the merge, the GET replies and the invalid-operation reply |
| Engine.Handles | internal/database/engine/engine.go:28-39 | `messageHandler` on the registry: a parse error replies with the prefixed message and changes nothing; otherwise the entity's records, starting empty for a new entity, move as `Outcome` says |
| Engine.ListingAllPresent | internal/database/engine/engine.go:116-120 | when no record fails to serialize, the listing reaches every record and each has attributes |
| Engine.ListingFails | internal/database/engine/engine.go:117-119 | one unserializable record makes the whole reply `Error deserializing data` |
| Engine.ListRecords | internal/database/engine/engine.go:112-124 | `0` for no records; the error text when some record cannot be serialized; otherwise one serialization per record, in order, joined by newlines |
| Engine.OutcomeIsLocal | internal/database/engine/engine.go:41-141 | an operation touches at most the addressed id; it keeps records under their own ids; it reports every change as `1` to a single-id command |
| Engine.InsertTwice | internal/database/engine/engine.go:56-69 | a repeated NEW replies `0` and changes nothing, so the first record stays |
| Engine.InsertThenGet | internal/database/engine/engine.go:56-108 | after a NEW stores a record, a GET of that id answers with its serialization |
| Engine.DeleteThenGet | internal/database/engine/engine.go:97-141 | DEL replies `1` exactly when the id was present; a following GET of it replies `0` |
| Engine.HandlesRegistry | internal/database/engine/engine.go:28-39 | a parse error leaves the registry alone; otherwise the entity is registered and no other entity's records change |
| Engine.HandlesCommand | internal/database/engine/engine.go:34-38 | for a parsed command, the registry afterwards is the old one with the entity's records replaced by the operation's outcome |
| Engine.HandlesParsed | internal/database/engine/engine.go:34-38 | an operation outcome on the entity's records is a handled command |
| Engine.Database.constructor | internal/database/engine/engine.go:18-20 | the registry starts empty |
| Engine.Database.MessageHandler | internal/database/engine/engine.go:28-39 | satisfies `Handles`: a parse error is replied as `Error processing command: ` + message and changes nothing; otherwise the operation's outcome on the entity's store, created empty on first use; existing stores are kept |
| Engine.Database.Dispatch | internal/database/engine/engine.go:34-38 | after a successful parse, the registry moves as `Handles` says |
| Engine.Database.Register | internal/database/engine/engine.go:34-37 | a store is created, empty, only for an entity without one; every existing store is kept |
| Engine.Database.ExecuteOperation | internal/database/engine/engine.go:41-54 | the reply and records are the operation's `Outcome`, `invalid operation` for an unknown word; only the addressed store changes |
| Engine.Database.InsertRecord | internal/database/engine/engine.go:56-69 | invalid id unless one non-zero id; `0` and no change when present; `1` and the record added when absent |
| Engine.Database.UpdateRecord | internal/database/engine/engine.go:71-84 | invalid id unless one non-zero id; `0` and no change when absent; `1` and the attributes merged when present |
| Engine.Database.GetRecords | internal/database/engine/engine.go:86-95 | address 0,0 lists all records; a single id gives that record or `0`; a range gives `Internal error` |
| Engine.Database.GetSingleRecord | internal/database/engine/engine.go:97-108 | `0` for an absent id; else a serialization of the record, or the serialization error text |
| Engine.Database.GetAllRecords | internal/database/engine/engine.go:110-125 | the listing of the ascending traversal: `0` when empty, the error text on an unserializable record, else the newline-joined serializations |
| Engine.Database.DeleteRecord | internal/database/engine/engine.go:127-141 | invalid id for address 0,0 or a range; `0` when absent; `1` and the record removed when present |
| Scenarios.FirstInsert | internal/database/engine/engine_test.go:11-29 | `NEW car:1 name 'bmw'` on an empty registry replies `1` and creates `car` holding that one record |
| Scenarios.SecondInsert | internal/database/engine/engine_test.go:31-50 | the same command again replies `0` and changes nothing |
| Scenarios.GetInserted | internal/database/engine/engine_test.go:142-164 | `GET car:1` then replies exactly `id 1 name 'bmw'` |
| Scenarios.DeleteInserted | internal/database/engine/engine_test.go:232-254 | `DEL car:1` replies `1` and leaves `car` empty |
| Scenarios.GetAbsent | internal/database/engine/engine_test.go:166-181 | `GET car:1` on the emptied store replies `0` |
| Scenarios.GetNeverStored | internal/database/engine/engine.go:97-101 | `GET car:2`, an id never stored, replies `0` |

## Left out

- The TCP server and the startup wiring (`Start`, `initializeServer`) are network I/O. So is the per-connection goroutine. The handler is modelled as a method called with one line.
- Record mutexes and concurrent access are left out. The store and the registry are single-threaded. `StorageData.IncrementsAccumulate` covers the increment test with the increments taken one after another.
- Floats: `strconv.FormatFloat` is the parameter `formatFloat: string -> string` applied to the accepted literal. No decimal float text is verified. Floats are outside the value round trip.
- `GoText.IsFloatLiteral` accepts the syntax below. Its limits:
  - What it accepts: an optionally signed decimal mantissa with an optional exponent, plus `inf`/`infinity`/`nan` in any case.
  - Hexadecimal floats and `_` digit separators are not recognised.
  - Literals that overflow float64 are not rejected.
- `GoText.ToUpper` upper-cases ASCII letters only. Go's `strings.ToUpper` follows Unicode.
- Strings are sequences of characters standing for bytes. There is no UTF-8 decoding.
- `Atoi` uses int64 bounds, as on a 64-bit platform.
- `int` values are unbounded integers except in `StorageData.Increment`, which wraps `balance+1` at 64 bits through `StorageData.Wrap64`. Other arithmetic on values does not occur in the core.
- `Data` is a map value, not a pointer. Two records sharing one `*Data` (aliasing) are not modelled. `StorageData.SetInt` returns the new map instead of writing through the pointer.
- `uint` ids are natural numbers. Wrap-around above 2^64 is not modelled. Parsed ids are at most 2^63-1 because of `Atoi`.
- Panics are preconditions, not behaviour:
  - a bracket address whose text has no `:` and is empty or a valid id, such as `e[]` or `e[5]` (`Parser.IdsDefined`);
  - nil attributes reaching `UpdateRecord`, or reaching `SerializeRecord` from a GET (`RecordStore.UpdateDefined`, `Engine.OperationDefined`);
  - `Record.Less` handed a non-record, which the types rule out.
- Parser.ParseCommand: the `Error parsing id` branch is not written as a statement, because `getIds` never returns an error. `Parser.ParseParts` keeps the branch, and `Parser.GetIds` proves it is never taken.
- The B-tree library itself (node splitting, degree 64) is not visible. It is modelled as an increasing sequence of distinct ids beside a map.
- The parser and engine data tests are not modelled. They target identifiers the shown code does not have (`engine.Data`, lowercase fields). The tests that were modelled are listed under `Scenarios`.
