# merde, modelled in Dafny

merde is a serialization core built from a few layers:

- a dynamically typed `Value` whose strings and byte strings either borrow the input or own a copy (`CowStr`, `CowBytes`);
- lifetime erasure (`IntoStatic`, `ToStatic`), which turns every borrowed leaf into an owned one;
- the conversion rules from a `Value`, or from a parsed JSON value, to typed Rust values;
- event emission by `Serialize`;
- the JSON writers: an event-driven one with a frame stack, and an older guard-based one;
- the MessagePack event decoder;
- the integer scanner of the lite JSON number decoder;
- `LazyIndexMap`.

This project models each of these in Dafny and proves what the code promises about them.

The model follows the form of the code. Pure conversions are datatypes and functions. Code that changes state is a class with `modifies` clauses and loop invariants. That covers the MessagePack decoder, both JSON serializers and their guards, the event sink, `LazyIndexMap`, the `Array`/`Map` buffers and the `HashMap` loops of the deserializers. Each such method is proved against a reference function, and the properties are proved about that function.

| module | models |
|---|---|
| `Wrappers`, `MachineInts`, `Utf8`, `StdCow`, `Decimal` | `Option`/`Result`, the Rust integer ranges (on a 64-bit target), UTF-8 encoding and validation, `std::borrow::Cow`, and decimal formatting |
| `Float64`, `Float32` | floats as IEEE 754 bit patterns, with the saturating `round() as u64`/`as i64` casts and the exact `f32 as f64` widening of a MessagePack `float 32` written out in integer arithmetic |
| `CowStr`, `CowBytes`, `LegacyCowStr` | merde_core/src/cowstr.rs, merde_core/src/cowbytes.rs, merde/src/cowstr.rs |
| `Value`, `ValueArray`, `ValueMap` | merde_core/src/value.rs, error.rs, array.rs and map.rs, plus the matching parts of merde_types/src/lib.rs and map.rs |
| `Event` | merde_core/src/event.rs |
| `IntoStatic` | merde_core/src/into_static.rs, merde_types/src/into_static.rs and to_static.rs, and the `ToStatic` impls of src/lib.rs |
| `Deserialize`, `LegacyDeserialize` | merde_core/src/deserialize.rs and merde-core/src/deserialize.rs |
| `Serialize` | merde_core/src/serialize.rs |
| `JsonEscape`, `JsonWriter`, `JsonError` | merde_json/src/serialize.rs, together with its copy in merde_json/src/lib.rs, and `MerdeJsonError` |
| `Msgpack`, `MsgpackFacts` | merde_msgpack/src/lib.rs |
| `NumberDecoder`, `NumberFacts` | merde_json/src/jiter_lite/number_decoder.rs |
| `LazyIndex` | merde/src/lazyindexmap.rs |
| `LegacyJson`, `LegacyJsonWriter` | the `JsonDeserialize` impls, `JsonValueExt`, `must_get`, `JsonSerializer` and the guards of src/lib.rs |

Conventions that hold throughout:

- Where the repository holds two copies of the same code, the same member covers both. This applies to the merde_types and merde_core duplicates and to the two event serializers of merde_json. The table below cites one copy.
- A `HashMap` is an association list. Its order stands for the unspecified iteration order, and map equality ignores that order.
- Floats are opaque bit patterns. Float formatting is a function parameter: `ryu` in the event serializer, `Display` in the guard-based writer.
- Each snapshot keeps its own `Value` and error shapes, with one datatype per module. For example, merde_core/src/serialize.rs serializes a `Value` with `I64`/`U64`/`Bytes` variants that merde_core/src/value.rs does not have.
  The older merde-core deserializers are the exception. They reuse merde_core's `Value` and `MerdeError`, because the variants they use have the same shapes in both.
- Where the design description and the code disagree, the model follows the code:
  - The doc comment of `JsonSerialize` (src/lib.rs:893-895) says a `None` is omitted. The impl writes `null`, and so does the model.
  - A `Map` is described as insertion-ordered. merde_core/src/map.rs wraps a `HashMap` and compares as one, so the model does the same.
  - The doc comment at src/lib.rs:887-889 says integers are written as numbers. The impls cast `u64` and `usize` to `i64` first, and the model writes what the cast gives (see Findings).

## Model

| member | source | states |
|---|---|---|
| CowBytes.New | merde_core/src/cowbytes.rs:20-22 | `new` borrows and keeps the bytes |
| CowBytes.IntoOwned | merde_core/src/cowbytes.rs:24-29 | `into_owned` gives the same bytes whichever the variant |
| CowBytes.FromSlice | merde_core/src/cowbytes.rs:49-53 | a slice converts to a borrowed value with those bytes |
| CowBytes.FromVec | merde_core/src/cowbytes.rs:55-59 | a vector converts to an owned value with those bytes |
| CowBytes.FromCow | merde_core/src/cowbytes.rs:61-68 | a `Cow` keeps its variant and its bytes |
| CowBytes.IntoStatic | merde_core/src/cowbytes.rs:102-111 | `into_static` is always owned and equal by content to its input |
| CowBytes.EqIsContentEquality | merde_core/src/cowbytes.rs:70-94 | equality compares contents only, is an equivalence, and equal values hash the same |
| CowBytes.IntoStaticKeepsBytes | merde_core/src/cowbytes.rs:102-111 | `into_static` keeps the bytes and is idempotent |
| CowStr.CopyFromStr | merde_core/src/cowstr.rs:31-41 | `copy_from_str` is owned and holds the given text |
| CowStr.FromUtf8 | merde_core/src/cowstr.rs:46-48 | `from_utf8` succeeds exactly on valid UTF-8, borrows, and its text encodes back to the input; on failure the error's `valid_up_to` marks a valid prefix |
| CowStr.FromUtf8Owned | merde_core/src/cowstr.rs:51-60 | `from_utf8_owned` succeeds exactly on valid UTF-8, owns, and its text encodes back to the input |
| CowStr.FromUtf8Lossy | merde_core/src/cowstr.rs:63-72 | `from_utf8_lossy` keeps valid input unchanged, and borrows only without `compact_str` and only for valid input |
| CowStr.FromUtf8Unchecked | merde_core/src/cowstr.rs:78-87 | `from_utf8_unchecked` on valid input holds its text, borrowed exactly when `compact_str` is off |
| CowStr.FromCow | merde_core/src/cowstr.rs:116-125 | a `Cow<str>` keeps its variant and its text |
| CowStr.FromStr | merde_core/src/cowstr.rs:127-132 | `From<&str>` borrows the text |
| CowStr.FromString | merde_core/src/cowstr.rs:134-140 | `From<String>` owns the text |
| CowStr.IntoStatic | merde_core/src/cowstr.rs:243-254 | `into_static` is owned and equal by content to its input |
| CowStr.EqIsContentEquality | merde_core/src/cowstr.rs:177-225 | equality compares texts only, is an equivalence, and equal values hash the same |
| CowStr.ConstructorsKeepText | merde_core/src/cowstr.rs:127-175 | every constructor gives its text back through `String::from` |
| CowStr.IntoStaticIdempotent | merde_core/src/cowstr.rs:243-254 | `into_static` is idempotent and leaves owned values as they are |
| CowStr.PartialEqWithStr | merde_core/src/cowstr.rs:352-365 | the crate's equality test: "hello" equals "hello" and differs from "world" |
| CowStr.FromUtf8ThenIntoStatic | merde_core/src/cowstr.rs:46-60 | `from_utf8` followed by `into_static` gives what `from_utf8_owned` gives, errors included |
| LegacyCowStr.FromCow | merde/src/cowstr.rs:32-39 | a `Cow<str>` keeps its variant and its text |
| LegacyCowStr.FromStr | merde/src/cowstr.rs:41-45 | `From<&str>` borrows the text |
| LegacyCowStr.FromString | merde/src/cowstr.rs:47-51 | `From<String>` owns the text |
| LegacyCowStr.EqIgnoresVariant | merde/src/cowstr.rs:65-77 | equality and hashing see only the text, never the variant |
| Utf8.Encode | merde_json/src/serialize.rs:137-156 | a character's UTF-8 form takes one to four bytes, so a text takes between one and four bytes per character |
| Utf8.ValidUpToSpec | merde_core/src/cowstr.rs:46-48 | the longest valid prefix `from_utf8` reports is valid, covers the whole input exactly when it is valid UTF-8, and is followed by a malformed sequence otherwise |
| Utf8.DecodeEncode | merde_msgpack/src/lib.rs:224-233 | text encoded to UTF-8 decodes back to itself |
| Utf8.EncodeDecode | merde_msgpack/src/lib.rs:224-233 | valid UTF-8 decodes to a text that encodes back to the same bytes |
| Utf8.LossyAgreesOnValid | merde_core/src/cowstr.rs:63-72 | on valid input the lossy decoder gives the strict decoder's text |
| Utf8.EncodeAppend | src/lib.rs:901-912 | the encoding of two texts joined is the two encodings joined |
| Utf8.ValidAppend | src/lib.rs:901-912 | joining two valid UTF-8 byte strings gives valid UTF-8 |
| Utf8.AsciiValid | src/lib.rs:901-912 | bytes below 0x80 are valid UTF-8 |
| Decimal.Digits | merde_json/src/serialize.rs:125-132 | the digits of a natural number are all digits, none leading zero except the single `0` |
| Decimal.ValueOfDigits | merde_json/src/serialize.rs:125-132 | the digits `itoa` writes for a natural number denote that number |
| Decimal.DigitsLength | merde_json/src/serialize.rs:125-132 | a number has at most k digits exactly when it is below 10^k |
| Decimal.ValueAppend | merde_json/src/jiter_lite/number_decoder.rs:295-315 | the value of a digit string split in two is the prefix's value scaled by the suffix's length plus the suffix's value |
| Float64.RoundAsU64 | src/lib.rs:503 | `f.round() as u64` is 0 for NaN and for every negative float |
| Float64.RoundAsI64 | src/lib.rs:554 | `f.round() as i64` is 0 for NaN and never negative for a non-negative float |
| Float64.EqIsPartialEquivalence | merde_core/src/value.rs:7-10 | float equality is symmetric and transitive but NaN is not equal to itself |
| Float32.WidenIsExact | merde_msgpack/src/lib.rs:91 | `v as f64` on a `float 32` keeps sign, infinity and NaN and denotes the same number |
| Float32.WidenNormal | merde_msgpack/src/lib.rs:216-218 | widening a normal binary32 gives a finite binary64 of the same sign and value |
| Float32.WidenSubnormal | merde_msgpack/src/lib.rs:216-218 | widening a subnormal binary32 gives a finite binary64 of the same sign and value |
| Value.ValueTypeOfInjective | merde_core/src/error.rs:131-141 | `value_type` never reports `BigInt` and reports different types for different variants |
| Value.ValueTypeOfNames | merde_core/src/error.rs:131-141 | `value_type` names each variant, `Str` as `String` |
| Value.KeyTexts | merde_core/src/map.rs:12 | the key texts of a map, one per entry, in iteration order |
| Value.Find | merde_core/src/map.rs:81-87 | lookup finds the first entry with the key's text and fails exactly when no key has it |
| Value.Insert | merde_core/src/map.rs:38-41 | after `insert` the key maps to the new value, other keys are unchanged, keys stay distinct, and the size grows by one only for a new key |
| Value.Remove | merde_core/src/map.rs:89-93 | after `remove` the key is gone, other keys are unchanged, keys stay distinct, and the size drops by one only when the key was there |
| Value.RemoveEntries | merde_core/src/map.rs:89-93 | removal drops one entry exactly when the key is present and invents none |
| Value.RemoveLookup | merde_core/src/map.rs:89-93 | removing one key leaves every other key's lookup as it was and the removed key unfindable |
| Value.FindDependsOnKeys | merde_core/src/map.rs:81-87 | lookup depends only on the key texts |
| Value.ArrayIntoStatic | merde_core/src/array.rs:26-33 | `Array::into_static` converts element by element and keeps the length |
| Value.MapIntoStatic | merde_core/src/map.rs:48-58 | `Map::into_static` converts every key and value and keeps the number of entries |
| Value.GetIntoStatic | merde_core/src/map.rs:48-58 | looking a key up in the converted map finds the converted value |
| Value.IntoStaticErasesBorrows | merde_core/src/value.rs:18-33 | `into_static` leaves no borrowed string, keeps every value's type, and is idempotent |
| Value.IntoStaticPreservesEq | merde_core/src/value.rs:7-33 | the converted value is equal, under the derived `PartialEq`, to exactly the values the original is equal to |
| Value.MapIntoStaticPreservesEq | merde_core/src/map.rs:10-12 | map equality is unchanged when either side is converted by `into_static` |
| Value.FromStr | merde_core/src/value.rs:53-57 | `From<&str>` gives a borrowed string value with that text |
| Value.FromString | merde_core/src/value.rs:59-63 | `From<String>` gives an owned string value with that text |
| Value.FromVec | merde_core/src/value.rs:95-99 | `From<Vec<Value>>` gives an array of those items |
| Value.FromHashMap | merde_core/src/value.rs:101-105 | `From<HashMap>` gives a map of those entries |
| Value.FromConversionsVariants | merde_core/src/value.rs:35-105 | every `From` conversion lands in the variant its source type names, and borrowed and owned strings of the same text are equal |
| Value.RewriteMissing | merde_core/src/array.rs:81-87 | the error rewrite of `must_get`/`must_pop` turns only `MissingValue` into the given error and passes everything else through |
| Value.AsMap | merde_core/src/value.rs:108-128 | `as_map`/`into_map` succeed exactly on a map, give its content back, and otherwise report `MismatchedType{Map, found}` |
| Value.AsArray | merde_core/src/value.rs:130-150 | `as_array`/`into_array` succeed exactly on an array, give it back, and otherwise report `MismatchedType{Array, found}` |
| Value.AsStr | merde_core/src/value.rs:152-172 | `as_str`/`into_str` succeed exactly on a string, give it back, and otherwise report `MismatchedType{String, found}` |
| Value.AsI64 | merde_core/src/value.rs:174-183 | `as_i64` succeeds exactly on `Int`, a float included in the refusals, with `MismatchedType{Int, found}` |
| Value.AccessorsInvertFrom | merde_core/src/value.rs:35-183 | each accessor inverts its `From` conversion and refuses the other variants |
| ValueArray.ArrayBuf.New | merde_core/src/array.rs:11-13 | `Array::new` is empty |
| ValueArray.ArrayBuf.Get | merde_core/src/array.rs:56-62 | `get` finds an element exactly for an index below the length, and it is the element at that index |
| ValueArray.ArrayBuf.MustGet | merde_core/src/array.rs:77-88 | `must_get` succeeds exactly when deserializing `get(index)` does, reports a `MissingValue` as `IndexOutOfBounds{index, len}`, and passes every other error through |
| ValueArray.ArrayBuf.With | merde_core/src/array.rs:105-108 | `with` appends the value after the earlier elements |
| ValueArray.ArrayBuf.MustPop | merde_core/src/array.rs:91-102 | `must_pop` removes the last element, if any, and deserializes it; a `MissingValue` is reported as `IndexOutOfBounds` at the new length |
| ValueArray.IntoInner | merde_core/src/array.rs:15-17 | `into_inner` gives back the elements, and `From<Vec>` is its inverse |
| ValueArray.MustGetBounds | merde_core/src/array.rs:71-88 | past the end, `must_get` fails with `IndexOutOfBounds` unless the target accepts an absent value (an `Option`); within bounds it deserializes the element |
| ValueArray.MustPopEmpty | merde_core/src/array.rs:91-102 | on an empty array `must_pop` reports index 0 of length 0, unless the target accepts an absent value |
| ValueArray.IntoStaticElementwise | merde_core/src/array.rs:26-33 | `into_static` keeps the length and an array equal to the original |
| ValueMap.MapBuf.New | merde_types/src/map.rs:13-15 | `Map::new` is empty |
| ValueMap.MapBuf.With | merde_types/src/map.rs:21-24 | `with` inserts: the key maps to the value, other keys are unchanged, keys stay distinct |
| ValueMap.MapBuf.MustGet | merde_types/src/map.rs:60-69 | `must_get` succeeds exactly when deserializing the lookup does, reports a `MissingValue` as `MissingProperty(key)`, and passes every other error through |
| ValueMap.MapBuf.MustRemove | merde_types/src/map.rs:77-86 | `must_remove` takes the entry out whether or not deserializing it succeeds, with the same error rewrite |
| ValueMap.IntoInner | merde_core/src/map.rs:43-45 | `into_inner` gives back the entries, and `From<HashMap>` is its inverse |
| ValueMap.MustGetAbsent | merde_types/src/map.rs:54-69 | a missing key gives `MissingProperty(key)` unless the target accepts an absent value; a present key deserializes its value |
| ValueMap.EqualityByLookup | merde_core/src/map.rs:10-12 | maps that agree on every lookup compare the same against every map |
| ValueMap.OwnLookup | merde_core/src/map.rs:12 | with distinct keys every entry is what a lookup of its own key finds |
| ValueMap.WithCommutes | merde_core/src/map.rs:38-41 | inserting two different keys in either order gives maps that compare the same against every map |
| ValueMap.NewIsEmpty | merde_core/src/map.rs:30-32 | `new` holds no key and equals exactly the empty maps |
| Event.FromInt | merde_core/src/event.rs:38-66 | signed integers become `I64` and unsigned ones `U64`, with the same value |
| Event.FromStr | merde_core/src/event.rs:68-72 | `From<&str>` gives a borrowed string event with that text |
| Event.FromString | merde_core/src/event.rs:74-78 | `From<String>` gives an owned string event with that text |
| Event.FromCow | merde_core/src/event.rs:80-84 | `From<Cow<str>>` keeps the text and whether it borrows |
| Event.FromSlice | merde_core/src/event.rs:86-90 | `From<&[u8]>` gives a borrowed bytes event with those bytes |
| Event.FromVec | merde_core/src/event.rs:92-96 | `From<Vec<u8>>` gives an owned bytes event with those bytes |
| Event.FromCowBytes | merde_core/src/event.rs:98-102 | `From<CowBytes>` passes the bytes through untouched |
| Event.IntoI64 | merde_core/src/event.rs:148-156 | `into_i64` succeeds exactly on an `I64` event and otherwise reports the event's type against `[I64]` |
| Event.IntoU64 | merde_core/src/event.rs:158-166 | `into_u64` succeeds exactly on a `U64` event and otherwise reports the event's type against `[U64]` |
| Event.IntoF64 | merde_core/src/event.rs:168-176 | `into_f64` succeeds exactly on an `F64` event and otherwise reports the event's type against `[Float]` |
| Event.IntoStr | merde_core/src/event.rs:178-186 | `into_str` succeeds exactly on a `Str` event and otherwise reports the event's type against `[Str]` |
| Event.IntoBytes | merde_core/src/event.rs:188-196 | `into_bytes` succeeds exactly on a `Bytes` event and otherwise reports the event's type against `[Bytes]` |
| Event.IntoBool | merde_core/src/event.rs:198-206 | `into_bool` succeeds exactly on a `Bool` event and otherwise reports the event's type against `[Bool]` |
| Event.IntoNull | merde_core/src/event.rs:208-216 | `into_null` succeeds exactly on `Null` and otherwise reports the event's type against `[Null]` |
| Event.IntoMapStart | merde_core/src/event.rs:218-226 | `into_map_start` succeeds exactly on `MapStart` and otherwise reports the event's type against `[MapStart]` |
| Event.IntoMapEnd | merde_core/src/event.rs:228-236 | `into_map_end` succeeds exactly on `MapEnd` and otherwise reports the event's type against `[MapEnd]` |
| Event.IntoArrayStart | merde_core/src/event.rs:238-246 | `into_array_start` succeeds exactly on `ArrayStart` and otherwise reports the event's type against `[ArrayStart]` |
| Event.IntoArrayEnd | merde_core/src/event.rs:248-256 | `into_array_end` succeeds exactly on `ArrayEnd` and otherwise reports the event's type against `[ArrayEnd]` |
| Event.TypeOfSeparatesVariants | merde_core/src/event.rs:119-135 | two events have the same `EventType` exactly when they are the same variant |
| Event.TypeOfCoversEveryType | merde_core/src/event.rs:104-117 | every `EventType` is the type of some event |
| Event.FromThenInto | merde_core/src/event.rs:38-256 | each `into_*` accessor undoes the matching `From` conversion, and refuses another variant |
| IntoStatic.CowIntoStatic | merde_core/src/into_static.rs:39-52 | `Cow::into_static` is always owned and keeps the content |
| IntoStatic.EventIntoStatic | merde_core/src/into_static.rs:54-72 | an event keeps its type; string and bytes payloads become owned with the same content; every other event is unchanged |
| IntoStatic.EventIntoStaticIdempotent | merde_core/src/into_static.rs:54-72 | the converted event borrows nothing, a static event is left as it is, and converting twice is converting once |
| IntoStatic.SeqIntoStatic | merde_core/src/into_static.rs:101-107 | `Vec`/`VecDeque` conversion keeps length and order and converts each element |
| IntoStatic.HashMapIntoStatic | merde_core/src/into_static.rs:109-123 | `HashMap` conversion converts every key and value and keeps the number of entries |
| IntoStatic.SetIntoStatic | merde_core/src/into_static.rs:125-134 | `HashSet` conversion holds exactly the converted members |
| IntoStatic.CowIntoStaticIdempotent | merde_core/src/into_static.rs:39-52 | `Cow::into_static` is idempotent and never changes the content |
| IntoStatic.PassthruContainers | merde_core/src/into_static.rs:74-107 | `Option`, `Result`, `Vec` and `HashMap` of pass-through values come back unchanged |
| IntoStatic.PassthruSetsAndTuples | merde_core/src/into_static.rs:125-158 | sets and pairs of pass-through values come back unchanged |
| IntoStatic.ContainersIdempotent | merde_core/src/into_static.rs:24-142 | every container's conversion is idempotent when its components' conversions are |
| IntoStatic.TuplesIdempotent | merde_core/src/into_static.rs:144-301 | the tuple conversions of arity 1 to 8 are idempotent when their components' are |
| IntoStatic.TupleOfCows | merde_core/src/into_static.rs:160-170 | a tuple of `Cow`s comes back with every component owned and the same content |
| IntoStatic.HashMapKeysStayDistinct | merde_core/src/into_static.rs:109-123 | converting a map's keys keeps them distinct, so no entry is lost when the result is collected |
| Deserialize.U64From | merde_core/src/deserialize.rs:153-165 | `u64::from_value_ref` only ever returns a value within `u64` |
| Deserialize.I64From | merde_core/src/deserialize.rs:191-203 | `i64::from_value_ref` only ever returns a value within `i64` |
| Deserialize.IntFrom | merde_core/src/deserialize.rs:129-235 | every integer impl returns a value that fits its type |
| Deserialize.ParseInt | merde_core/src/deserialize.rs:315-343 | `K::from_str` for an integer key type yields only values in the type's range |
| Deserialize.InsertOut | merde_core/src/deserialize.rs:330-331 | inserting into the output map binds the key to the new value and keeps every entry with another key |
| Deserialize.HashMapFrom | merde_core/src/deserialize.rs:315-343 | a `HashMap` target converts a map's entries in iteration order into an empty map |
| Deserialize.DeserializeHashMap | merde_core/src/deserialize.rs:321-342 | the impl's loop over the entries gives what the entry-by-entry definition gives |
| Deserialize.OwnedAgreesWithRef | merde_core/src/deserialize.rs:55-69 | for every target, moving a value in (`from_value`) gives what lending it (`from_value_ref`) gives |
| Deserialize.PartsOwnedAgree | merde_core/src/deserialize.rs:433-465 | a tuple's owned and borrowed conversions agree component by component |
| Deserialize.FromValueRefOf | merde_types/src/lib.rs:293-299 | the free `from_value_ref` is handed a value that is there, so it never reports `MissingValue` |
| Deserialize.FromValueOf | merde_types/src/lib.rs:301-307 | the free `from_value` gives what the free `from_value_ref` gives |
| Deserialize.IntNarrowing | merde_core/src/deserialize.rs:129-235 | `Int(n)` is accepted exactly when n is in the target type's range, unchanged, and is `OutOfRange` otherwise |
| Deserialize.IntMismatch | merde_core/src/deserialize.rs:129-235 | a non-number is `MismatchedType{Int, found}` for every integer type, and absence is `MissingValue` |
| Deserialize.NegativeFloatAsU64AndUsize | merde_core/src/deserialize.rs:153-219 | a negative float saturates to 0 as `u64`, while `usize` rejects one rounding below zero as `OutOfRange` |
| Deserialize.MissingValueOnlyWhenAbsent | merde_core/src/deserialize.rs:278-294 | `MissingValue` arises exactly for an absent value and a target that is not an `Option`, at any depth |
| Deserialize.ElementsNeverMissing | merde_core/src/deserialize.rs:296-313 | converting an array's elements never reports `MissingValue` |
| Deserialize.PartsNeverMissing | merde_core/src/deserialize.rs:433-465 | converting a tuple's components never reports `MissingValue` |
| Deserialize.EntriesNeverMissing | merde_core/src/deserialize.rs:315-343 | converting a map's entries never reports `MissingValue` |
| Deserialize.FirstFailure | merde_core/src/deserialize.rs:302-305 | the index of the first element that fails to convert: every element before it converts |
| Deserialize.ElementsSpec | merde_core/src/deserialize.rs:296-313 | `Vec<T>` succeeds exactly when every element converts, element j from element j, and otherwise gives the first failing element's error |
| Deserialize.TupleSpec | merde_core/src/deserialize.rs:433-786 | an n-tuple accepts only an array of exactly n elements, component j from element j; a wrong length is an array mismatch |
| Deserialize.OptionSpec | merde_core/src/deserialize.rs:278-294 | `Null` and absence give `None`; any other value gives `Some` of the inner result or the inner error |
| Deserialize.PassThrough | merde_core/src/deserialize.rs:71-128 | `CowStr`, `Value`, `Array` and `Map` hand back the payload, `Cow<str>` and `String` keep the text, and `Box`/`Rc`/`Arc` wrap the inner result |
| Deserialize.EntriesOkSpec | merde_core/src/deserialize.rs:315-343 | `HashMap<K, V>` succeeds exactly when every key parses and every value converts |
| Deserialize.EntriesKeysSpec | merde_core/src/deserialize.rs:315-343 | on success every entry's parsed key is bound in the resulting map |
| Deserialize.KeysSurviveEntries | merde_core/src/deserialize.rs:326-332 | a key already inserted stays in the map while later entries are inserted |
| Deserialize.ParseIntSigns | merde_core/src/deserialize.rs:315-343 | `from_str` rejects `-` for an unsigned key type and a lone sign or an empty key for every integer type |
| LegacyDeserialize.Embed | merde-core/src/deserialize.rs:35-309 | every target of the older crate is a target of the newer one that has no `Box`/`Rc`/`Arc` or tuple target |
| LegacyDeserialize.DeserializeHashMap | merde-core/src/deserialize.rs:234-258 | the `HashMap` impl's loop gives what the entry-by-entry definition gives |
| LegacyDeserialize.LegacyAgrees | merde-core/src/deserialize.rs:35-309 | every impl of the older crate decides as the newer crate's does, except that `InvalidKey` carries no payload |
| LegacyDeserialize.IntAgrees | merde-core/src/deserialize.rs:92-182 | the integer impls decide as the newer crate's do |
| LegacyDeserialize.TextAgrees | merde-core/src/deserialize.rs:35-90 | the `CowStr`, `Cow<str>` and `String` impls decide as the newer crate's do |
| LegacyDeserialize.WholeAgrees | merde-core/src/deserialize.rs:260-309 | the `bool`, `Value`, `Array` and `Map` impls decide as the newer crate's do |
| LegacyDeserialize.ElementsAgree | merde-core/src/deserialize.rs:215-232 | `Vec<T>` decides as the newer crate's does |
| LegacyDeserialize.EntriesAgree | merde-core/src/deserialize.rs:234-258 | `HashMap<K, V>` decides as the newer crate's does, with a bare `InvalidKey` |
| LegacyDeserialize.UsizeAcceptsNonNegative | merde-core/src/deserialize.rs:168-182 | `usize` accepts exactly the non-negative integers and reports `OutOfRange` for the others |
| LegacyDeserialize.BadFirstKey | merde-core/src/deserialize.rs:245 | a first key that does not parse fails the whole map with the payload-less `InvalidKey` |
| JsonError.ErrorIntoStatic | merde_json/src/lib.rs:276 | `MerdeError::into_static` leaves no borrowed string in the error |
| JsonError.WithoutSource | merde_json/src/lib.rs:274-284 | `without_source` gives a `'static` error |
| JsonError.ToStatic | merde_json/src/lib.rs:287-298 | `to_static` gives a `'static` error |
| JsonError.WithoutSourceKeeps | merde_json/src/lib.rs:274-284 | `without_source` drops a `JiterError`'s source and keeps its error; every other variant keeps its content, and the UTF-8, I/O and bytes variants are unchanged |
| JsonError.ToStaticKeeps | merde_json/src/lib.rs:287-298 | `to_static` changes only whether strings borrow: the content, source included, is kept |
| JsonError.ToStaticOfStatic | merde_json/src/lib.rs:287-298 | a `'static` error is its own `to_static`, so `to_static` is idempotent |
| JsonError.WithoutSourceAfterToStatic | merde_json/src/lib.rs:274-298 | dropping the source after `to_static` is dropping it straight away, and `to_static` leaves a source-less error unchanged |
| JsonEscape.HexDigit | merde_json/src/serialize.rs:147-151 | `{:x}` writes a digit below 16 as `0`–`9` or a lowercase `a`–`f` |
| JsonEscape.UnicodeEscape | merde_json/src/serialize.rs:147-151 | `\u{:04x}` of a code point below U+10000 is exactly six characters, the size of the buffer it is written into |
| JsonEscape.EscapeCharText | merde_json/src/serialize.rs:140-153 | a character is written as one to six characters |
| JsonEscape.Ascii | merde_json/src/serialize.rs:147-151 | an ASCII escape is one byte per character |
| JsonEscape.EscapeAppend | merde_json/src/serialize.rs:140-154 | escaping a concatenation escapes each part in turn, so the loop over `s.chars()` may write character by character |
| JsonEscape.EscapeSnoc | merde_json/src/serialize.rs:140-154 | escaping one more character appends that character's bytes |
| JsonEscape.EscapeCharIsUtf8 | merde_json/src/serialize.rs:141-152 | the bytes written for one character are the UTF-8 encoding of its escaped text: escapes are ASCII and any other character is its own UTF-8 |
| JsonEscape.AsciiEncodes | merde_json/src/serialize.rs:147-151 | ASCII text encodes to one byte per character, the character's code |
| JsonEscape.EscapeIsUtf8 | merde_json/src/lib.rs:145-164 | the bytes written between the quotes are valid UTF-8: the encoding of the escaped text |
| JsonEscape.HexValue | merde_json/src/serialize.rs:147-151 | a hexadecimal digit is worth less than 16 |
| JsonEscape.Hex4 | merde_json/src/serialize.rs:147-151 | four hexadecimal digits are worth less than 0x10000 |
| JsonEscape.HexRoundTrip | merde_json/src/serialize.rs:147-151 | the four digits of `\u{:04x}` are hexadecimal and read back as the code point |
| JsonEscape.ReadsEscapedChar | merde_json/src/serialize.rs:141-152 | a JSON reader, reading the escape of one character, gets that character back and consumes exactly its escape |
| JsonEscape.ReadsEscaped | merde_json/src/serialize.rs:137-156 | the escaped text of any string followed by a quote reads back, per section 7 of RFC 8259, as that string, and the token ends at that quote whatever follows |
| JsonEscape.QuotedReadsBack | merde_json/src/lib.rs:145-164 | the whole quoted token the writer emits decodes as UTF-8 and reads back as the original string |
| JsonWriter.JsonSerializer.constructor | merde_json/src/serialize.rs:185-191 | `new(w)` writes after what `w` holds, with an empty frame stack |
| JsonWriter.JsonSerializer.Write | merde_json/src/serialize.rs:77-178 | `write` appends exactly the bytes of the step function `Step` and leaves its frame stack; `true` stands for the panic |
| JsonWriter.JsonSerializer.WriteEvent | merde_json/src/serialize.rs:116-175 | the event's own text is appended and a container start pushes its frame |
| JsonWriter.JsonSerializer.WriteStr | merde_json/src/serialize.rs:137-156 | a string event appends its quoted, escaped bytes and keeps the stack |
| JsonWriter.JsonSerializer.WriteEscaped | merde_json/src/serialize.rs:140-154 | the loop over the characters appends the escape of the whole string |
| JsonWriter.JsonSerializer.Extend | merde_json/src/lib.rs:26-31 | `extend_from_slice` on a `&mut Vec<u8>` appends the slice and cannot fail |
| JsonWriter.EscapeMore | merde_json/src/lib.rs:148-162 | after `i` characters, writing the next one's escape gives the escape of `i + 1` characters |
| JsonWriter.StepUnder | merde_json/src/lib.rs:90-122 | under a top frame, an `ArrayEnd` on an array frame or a `MapEnd` on a key frame writes `]`/`}` and pops; anything else gets the frame's separator (none for a first item, `,` otherwise, `:` before a map value) and moves the frame on |
| JsonWriter.PanicsExactly | merde_json/src/serialize.rs:168-170 | `write` panics exactly on an `ArrayEnd` whose top frame is missing or not an array's |
| JsonWriter.StepDepth | merde_json/src/serialize.rs:157-167 | a container start deepens the stack by one, a closing end event shortens it by one, and every other event keeps its depth, so the depth counts the open containers |
| JsonWriter.EndsAndBytes | merde_json/src/serialize.rs:161-174 | a `MapEnd` on an empty stack writes a bare `}`; a `Bytes` event writes only its frame's separator |
| JsonWriter.FoldAppend | merde_json/src/lib.rs:89-185 | successive `write` calls compose: writing two event sequences in turn is writing their concatenation |
| JsonWriter.RunAppend | merde_json/src/lib.rs:89-185 | the same for the serializer's own step |
| JsonWriter.FoldOne | merde_json/src/lib.rs:89-185 | a sequence of one event is one step |
| JsonWriter.RunOne | merde_json/src/lib.rs:89-185 | a sequence of one event is one `write` |
| JsonWriter.AtTop | merde_json/src/lib.rs:90-122 | the separator and successor of a stack are those of its top frame |
| JsonWriter.StepAt | merde_json/src/lib.rs:90-122 | a non-end event is written after the top frame's separator, on the moved-on stack |
| JsonWriter.ValueRun | merde_json/src/lib.rs:89-185 | the events of a value, written on any stack, give the top frame's separator and the value's JSON text as a recursive printer writes it, move the top frame on, and never panic |
| JsonWriter.ArrayRun | merde_json/src/lib.rs:93-103 | an array's events write `[`, its items joined by `,`, and `]` |
| JsonWriter.MapRun | merde_json/src/lib.rs:104-121 | a map's events write `{`, its members `"key":value` joined by `,`, and `}` |
| JsonWriter.ScalarRun | merde_json/src/lib.rs:124-164 | a scalar's single event writes `null`, `true`/`false`, its decimal digits, the float formatter's text or its quoted escape |
| JsonWriter.ContainerRun | merde_json/src/lib.rs:165-175 | a container start, its members and the matching end write the opening bracket, the members' text and the closing bracket and restore the stack |
| JsonWriter.FoldContainer | merde_json/src/lib.rs:165-175 | the same for any step function |
| JsonWriter.ArrayShape | merde_json/src/lib.rs:172-174 | an array's events are its start, its items' events and its end |
| JsonWriter.MapShape | merde_json/src/lib.rs:165-167 | a map's events are its start, its members' events and its end |
| JsonWriter.RunThen | merde_json/src/lib.rs:89-185 | two runs, the second starting on the stack the first leaves, compose |
| JsonWriter.ItemsRun | merde_json/src/serialize.rs:85-95 | an array's items written after `[` are joined by `,`, the first with no separator |
| JsonWriter.ItemRun | merde_json/src/serialize.rs:85-95 | one item under an array frame gets `,` unless it is the first, and leaves the frame past its first item |
| JsonWriter.MembersRun | merde_json/src/serialize.rs:96-112 | a map's members written after `{` are joined by `,`, the first with no separator |
| JsonWriter.EntryRun | merde_json/src/serialize.rs:96-112 | a member writes its key, moving the frame to `MapValue`, then `:` and its value, moving the frame back to a non-first key |
| JsonWriter.KeyRun | merde_json/src/serialize.rs:96-108 | a key under a key frame gets `,` unless it is the first and leaves the frame at `MapValue` |
| JsonWriter.TopRun | merde_json/src/serialize.rs:77-178 | on a fresh serializer the events of a value write exactly its JSON text and leave no frame open |
| Serialize.ArrayRuns | merde_core/src/serialize.rs:280-282 | one event run per item, each the item's own events |
| Serialize.MapRuns | merde_core/src/serialize.rs:262-265 | one run per entry: the key as a borrowed string, then the value's events |
| Serialize.SeqRuns | merde_core/src/serialize.rs:192-194 | one event run per element, each the element's own events |
| Serialize.PairRuns | merde_core/src/serialize.rs:244-247 | one run per `HashMap` entry: the key's events, then the value's |
| Serialize.Outcome | merde_core/src/serialize.rs:187-195 | writing a sequence fails exactly when the failing write falls inside it, and then with that write's error |
| Serialize.Sink.constructor | merde_core/src/serialize.rs:10-15 | a serializer starts with nothing written |
| Serialize.Sink.Write | merde_core/src/serialize.rs:10-15 | `write` either fails, leaving the output alone, or accepts the event and appends it |
| Serialize.LoggedAppend | merde_core/src/serialize.rs:187-195 | `?` stops at the first failure: writing `a` then `b` either fails inside `a` with `a`'s partial output, or completes `a` and continues with `b` |
| Serialize.ConcatSplit | merde_core/src/serialize.rs:192-194 | the members' events split at any member index |
| Serialize.ConcatFirst | merde_core/src/serialize.rs:192-194 | the members' events are the first member's followed by the rest |
| Serialize.MemberFails | merde_core/src/serialize.rs:192-194 | one loop iteration whose member fails ends the loop with exactly the log and result of writing all members |
| Serialize.MemberDone | merde_core/src/serialize.rs:192-194 | one loop iteration whose member succeeds extends the written prefix by that member's run, still with no failure |
| Serialize.MembersBounds | merde_core/src/serialize.rs:192-195 | before the loop nothing is written; a loop that finishes without failure has written every member |
| Serialize.ContainerParts | merde_core/src/serialize.rs:187-195 | a container's writes are its start event, its members' runs and its end event, and a failure in any of them ends the whole |
| Serialize.ContainerOpenFails | merde_core/src/serialize.rs:187-195 | a container whose start event fails leaves the sink as it was and fails at that write |
| Serialize.ContainerBodyFails | merde_core/src/serialize.rs:187-195 | a container one of whose members fails logs its start event and the members' events up to the failure, with the members' error |
| Serialize.ContainerCloseFails | merde_core/src/serialize.rs:187-195 | a container whose end event fails logs every event but the end and fails at that write |
| Serialize.ContainerDone | merde_core/src/serialize.rs:187-195 | a container none of whose writes fails logs start, members and end and succeeds |
| Serialize.SerializeValue | merde_core/src/serialize.rs:287-312 | `Value::serialize` writes exactly its events up to the first failing write, and returns that failure or success |
| Serialize.SerializeArray | merde_core/src/serialize.rs:270-285 | `Array::serialize` writes `ArrayStart` with the length, every item and `ArrayEnd`, stopping at the first failure |
| Serialize.WriteArrayMembers | merde_core/src/serialize.rs:280-282 | the loop over the items writes their runs in order and stops at the first failure |
| Serialize.SerializeMap | merde_core/src/serialize.rs:252-268 | `Map::serialize` writes `MapStart` with the length, each key as a borrowed string then its value, and `MapEnd`, stopping at the first failure |
| Serialize.WriteMapMembers | merde_core/src/serialize.rs:262-265 | the loop over the entries writes their runs in order and stops at the first failure |
| Serialize.SerializeEntry | merde_core/src/serialize.rs:263-264 | one entry writes its key, then its value, unless the key's write fails |
| Serialize.Serialize | merde_core/src/serialize.rs:88-312 | every `Serialize` impl (integers, floats, `bool`, strings, `Cow`, `CowBytes`, `Option`, slices, `Vec`, `Box`, `Arc`, `HashMap`, `Map`, `Array`, `Value`, tuples) writes exactly its event sequence up to the first failing write |
| Serialize.SerializeSeq | merde_core/src/serialize.rs:182-214 | slices, `Vec` and tuples write `ArrayStart` with the length, every element and `ArrayEnd`, stopping at the first failure |
| Serialize.WriteSeqMembers | merde_core/src/serialize.rs:209-211 | the loop over the elements writes their events in order and stops at the first failure |
| Serialize.SerializeHashMap | merde_core/src/serialize.rs:234-250 | `HashMap` writes `MapStart` with the length, each key's events then its value's, and `MapEnd`, stopping at the first failure |
| Serialize.WriteHashMapMembers | merde_core/src/serialize.rs:244-247 | the loop over the pairs writes their events in order and stops at the first failure |
| Serialize.SerializePair | merde_core/src/serialize.rs:245-246 | one pair writes the key's events, then the value's, unless a key write fails |
| Msgpack.FromBeBytes | merde_msgpack/src/lib.rs:159-198 | `uN::from_be_bytes` of `n` bytes is below 256^n |
| Msgpack.ToBeBytes | merde_msgpack/src/lib.rs:159-198 | the big-endian bytes of a value take exactly the field's width |
| Msgpack.BeBytesRoundTrip | merde_msgpack/src/lib.rs:159-198 | reading back the big-endian bytes of a value that fits gives the value |
| Msgpack.BeBytesRoundTripBytes | merde_msgpack/src/lib.rs:159-198 | the big-endian bytes of what was read are the bytes read |
| Msgpack.ReadUInt | merde_msgpack/src/lib.rs:150-198 | a big-endian field of `n` bytes fails with `Eof` exactly when fewer than `n` bytes remain, and otherwise is the value whose big-endian bytes are the `n` bytes at the offset |
| Msgpack.Pow256Values | merde_msgpack/src/lib.rs:159-198 | the ranges of `u8`, `u16`, `u32` and `u64` |
| Msgpack.Hex2 | merde_msgpack/src/lib.rs:132-139 | `{byte:02x}` is two lowercase hex digits that read back as the byte |
| Msgpack.StrRead | merde_msgpack/src/lib.rs:224-231 | `read_str(len)` is `Eof` exactly when fewer than `len` bytes remain, succeeds exactly when those bytes are valid UTF-8, and then borrows their text |
| Msgpack.BytesRead | merde_msgpack/src/lib.rs:248-255 | `read_bytes(len)` is `Eof` exactly when fewer than `len` bytes remain, and otherwise borrows exactly those bytes |
| Msgpack.NumberWidth | merde_msgpack/src/lib.rs:83-92 | the numeric forms read a 1-, 2-, 4- or 8-byte payload |
| Msgpack.SignedFits | merde_msgpack/src/lib.rs:87-90 | `v as iN as i64` is always in the `i64` range |
| Msgpack.Counted | merde_msgpack/src/lib.rs:50-67 | counting an item keeps the stack's depth |
| Msgpack.MsgpackDeserializer.constructor | merde_msgpack/src/lib.rs:25-32 | `new` starts at offset 0 with no open container and nothing put back |
| Msgpack.MsgpackDeserializer.PutBack | merde_msgpack/src/lib.rs:143-146 | `put_back` succeeds and only fills the put-back slot |
| Msgpack.MsgpackDeserializer.Next | merde_msgpack/src/lib.rs:45-141 | `next` returns what the specification function `NextSpec` returns and leaves the state it leaves |
| Msgpack.MsgpackDeserializer.DecodeByte | merde_msgpack/src/lib.rs:76-140 | the `match byte` arms do what `DecodeSpec` states, by ranges of the type byte |
| Msgpack.MsgpackDeserializer.DecodeMarkerByte | merde_msgpack/src/lib.rs:77-129 | the type bytes `0xc0..=0xdf`: nil, booleans, sized forms, numbers, long containers and the unsupported bytes |
| Msgpack.MsgpackDeserializer.ReadSized | merde_msgpack/src/lib.rs:233-270 | `read_str_8/16/32` and `read_bytes_8/16/32` read a length field then that many bytes |
| Msgpack.MsgpackDeserializer.ReadLength | merde_msgpack/src/lib.rs:233-270 | the length field is read by `read_u8`, `read_u16` or `read_u32` and moves the offset only on success |
| Msgpack.MsgpackDeserializer.ReadNumber | merde_msgpack/src/lib.rs:83-92 | the numeric type bytes read their payload and give the widened or extended event |
| Msgpack.MsgpackDeserializer.ReadFloat | merde_msgpack/src/lib.rs:91-92 | `float 32` is widened to `f64`; `float 64` is taken bit for bit |
| Msgpack.MsgpackDeserializer.ReadUnsigned | merde_msgpack/src/lib.rs:83-86 | `uint 8..64` are zero-extended to `U64` |
| Msgpack.MsgpackDeserializer.ReadSigned | merde_msgpack/src/lib.rs:87-90 | `int 8..64` are sign-extended to `I64` |
| Msgpack.MsgpackDeserializer.ReadMapHeader | merde_msgpack/src/lib.rs:116-129 | `map 16/32` read a length and push a counter of twice that many items |
| Msgpack.MsgpackDeserializer.ReadU8 | merde_msgpack/src/lib.rs:150-157 | `read_u8` reads one byte, or fails with `Eof` without moving |
| Msgpack.MsgpackDeserializer.ReadU16 | merde_msgpack/src/lib.rs:159-166 | `read_u16` reads two bytes big-endian, or fails with `Eof` without moving |
| Msgpack.MsgpackDeserializer.ReadU32 | merde_msgpack/src/lib.rs:168-180 | `read_u32` reads four bytes big-endian, or fails with `Eof` without moving |
| Msgpack.MsgpackDeserializer.ReadU64 | merde_msgpack/src/lib.rs:182-198 | `read_u64` reads eight bytes big-endian, or fails with `Eof` without moving |
| Msgpack.MsgpackDeserializer.ReadI8 | merde_msgpack/src/lib.rs:200-202 | `read_i8` is `read_u8` reinterpreted as two's complement |
| Msgpack.MsgpackDeserializer.ReadI16 | merde_msgpack/src/lib.rs:204-206 | `read_i16` is `read_u16` reinterpreted as two's complement |
| Msgpack.MsgpackDeserializer.ReadI32 | merde_msgpack/src/lib.rs:208-210 | `read_i32` is `read_u32` reinterpreted as two's complement |
| Msgpack.MsgpackDeserializer.ReadI64 | merde_msgpack/src/lib.rs:212-214 | `read_i64` is `read_u64` reinterpreted as two's complement |
| Msgpack.MsgpackDeserializer.ReadStr | merde_msgpack/src/lib.rs:224-231 | `read_str` moves past the text only when it is there and valid UTF-8 |
| Msgpack.MsgpackDeserializer.ReadBytes | merde_msgpack/src/lib.rs:248-255 | `read_bytes` moves past the bytes only when they are there |
| Msgpack.MsgpackDeserializer.ReadArray16 | merde_msgpack/src/lib.rs:272-278 | `array 16` reads a 16-bit length and pushes a counter of that many items |
| Msgpack.MsgpackDeserializer.ReadArray32 | merde_msgpack/src/lib.rs:280-286 | `array 32` reads a 32-bit length and pushes a counter of that many items |
| Msgpack.PutBackComesFirst | merde_msgpack/src/lib.rs:46-48 | a put-back event is returned by the next call before anything else, and nothing else changes |
| Msgpack.ExhaustedContainerEnds | merde_msgpack/src/lib.rs:50-66 | an exhausted array or map counter is popped and yields `ArrayEnd` or `MapEnd` without reading a byte |
| Msgpack.EofAtEnd | merde_msgpack/src/lib.rs:69-71 | with no byte left, `next` fails with `Eof`, the item already counted |
| Msgpack.NextReads | merde_msgpack/src/lib.rs:50-76 | otherwise `next` counts the item against its container and decodes the type byte at the offset |
| Msgpack.CountedDecrements | merde_msgpack/src/lib.rs:52-65 | counting lowers the innermost counter by one, keeps its kind and leaves the rest of the stack alone |
| Msgpack.StackDiscipline | merde_msgpack/src/lib.rs:76-140 | decoding a type byte never ends a container, never moves back, and pushes a counter exactly when a container starts: its length for an array, twice it for a map |
| Msgpack.MarkerDiscipline | merde_msgpack/src/lib.rs:77-129 | the same for the type bytes `0xc0..=0xdf` |
| Msgpack.FixintForms | merde_msgpack/src/lib.rs:130-131 | a positive fixint is `U64` of the type byte and a negative fixint `I64` of its two's-complement value, reading nothing more |
| Msgpack.NumberForms | merde_msgpack/src/lib.rs:83-92 | the fixed-width numbers read a big-endian payload: unsigned zero-extended, signed sign-extended, `float 32` widened, `float 64` as its bits; a short payload is `Eof` without moving past the type byte |
| Msgpack.NumberWidthIs | merde_msgpack/src/lib.rs:83-92 | `float 32` reads 4 bytes, `float 64` 8, `uint`/`int` 8 to 64 read 1, 2, 4 and 8 |
| Msgpack.NumberEvents | merde_msgpack/src/lib.rs:83-92 | the event each numeric type byte makes of its payload |
| Msgpack.MarkerByte | merde_msgpack/src/lib.rs:77-129 | the type bytes `0xc0..=0xdf` decode as the marker forms |
| Msgpack.SizedByte | merde_msgpack/src/lib.rs:80-99 | `bin 8/16/32` and `str 8/16/32` decode with a 1-, 2- or 4-byte length field |
| Msgpack.NumberByte | merde_msgpack/src/lib.rs:83-92 | the numeric type bytes decode as fixed-width numbers |
| Msgpack.SignExtension | merde_msgpack/src/lib.rs:200-214 | `v as iN` is the one value in the signed range equal to `v` or `v - 2^(8n)`, negative exactly when the top bit is set |
| Msgpack.SignExtensionInverse | merde_msgpack/src/lib.rs:200-214 | sign extension undoes two's-complement truncation |
| Msgpack.ContainerForms | merde_msgpack/src/lib.rs:100-129 | fixarray and fixmap carry their length in the low four bits; `array 16/32` and `map 16/32` read it big-endian; a map's counter is twice its length; a short length field is `Eof` without moving |
| Msgpack.FixStrForm | merde_msgpack/src/lib.rs:93-96 | a fixstr carries its length in the low five bits and reads that many bytes of UTF-8 |
| Msgpack.SizedForms | merde_msgpack/src/lib.rs:233-270 | `str 8/16/32` and `bin 8/16/32` read a length then exactly that many borrowed bytes; a short length is `Eof` after the type byte, a short payload `Eof` after the length |
| Msgpack.UnsupportedForms | merde_msgpack/src/lib.rs:132-139 | extension types and `0xc1`, and only they, are refused with a message naming the byte in hex |
| MsgpackFacts.RunWithAppend | merde_msgpack/src/lib.rs:45-141 | successive calls of `next` compose: `a` calls then `b` calls are `a + b` calls |
| MsgpackFacts.RunWithBracket | merde_msgpack/src/lib.rs:100-129 | a header step, a run and an end step make one run |
| MsgpackFacts.CountedSlot | merde_msgpack/src/lib.rs:52-65 | counting an item against a container with `n + 1` left leaves `n` |
| MsgpackFacts.NextFrom | merde_msgpack/src/lib.rs:69-76 | `next` at a reading state decodes the type byte at the offset |
| MsgpackFacts.UIntStep | merde_msgpack/src/lib.rs:83-86 | any `u64`, in the shortest form the format allows, is read back as `U64` of itself in one step, consuming exactly its encoding |
| MsgpackFacts.NegIntStep | merde_msgpack/src/lib.rs:87-90 | any negative `i64`, in the shortest form, is read back as `I64` of itself in one step |
| MsgpackFacts.SignedStep | merde_msgpack/src/lib.rs:87-90 | an `int 8..64` holding a two's-complement value reads back as that value |
| MsgpackFacts.StrReadsBack | merde_msgpack/src/lib.rs:224-231 | the UTF-8 bytes of a text read back as that text, borrowed |
| MsgpackFacts.TextStep | merde_msgpack/src/lib.rs:93-99 | any string, with the header the format prescribes for its length, is read back in one step |
| MsgpackFacts.LongHeaders | merde_msgpack/src/lib.rs:233-270 | the length classes of `str`/`bin` headers: 8-bit, 16-bit and 32-bit lengths |
| MsgpackFacts.LongSizedStep | merde_msgpack/src/lib.rs:233-270 | a `str` of 32 bytes or more, or any `bin`, reads its length and its payload in one step |
| MsgpackFacts.FixStrNext | merde_msgpack/src/lib.rs:93-96 | a fixstr reads its payload in one step |
| MsgpackFacts.BinaryStep | merde_msgpack/src/lib.rs:257-270 | any byte string, with its header, is read back in one step, borrowed |
| MsgpackFacts.ScalarSteps | merde_msgpack/src/lib.rs:76-140 | every scalar (nil, booleans, integers, strings, byte strings) is read back as its event in one step, consuming its encoding |
| MsgpackFacts.HeaderStep | merde_msgpack/src/lib.rs:100-129 | a container header yields `ArrayStart`/`MapStart` with the length and pushes its counter |
| MsgpackFacts.HeaderTagged | merde_msgpack/src/lib.rs:107-129 | `array 16/32` and `map 16/32` with their length field |
| MsgpackFacts.NextBehaves | merde_msgpack/src/lib.rs:45-141 | `next` reads scalars, container headers and container ends as the format prescribes |
| MsgpackFacts.ContainerShape | merde_msgpack/src/lib.rs:100-129 | a container's encoding is its header then its items, and its events its start, its items' events and its end |
| MsgpackFacts.DecodesItem | merde_msgpack/src/lib.rs:45-141 | any well-formed value read on any reading state yields exactly its events, consumes exactly its encoding, and counts one item against the enclosing container |
| MsgpackFacts.DecodesContainer | merde_msgpack/src/lib.rs:100-129 | the same for arrays and maps |
| MsgpackFacts.DecodesScalar | merde_msgpack/src/lib.rs:76-99 | the same for scalars |
| MsgpackFacts.DecodesBracketed | merde_msgpack/src/lib.rs:50-67 | a container's header, its items and the end its exhausted counter yields |
| MsgpackFacts.DecodesItems | merde_msgpack/src/lib.rs:50-67 | the items of an open container, read in turn, each counted against it |
| MsgpackFacts.DecodesEncoding | merde_msgpack/src/lib.rs:289-296 | a fresh deserializer on the encoding of any value, whatever follows it, yields exactly the value's events, stops right after the encoding and leaves no container open |
| NumberDecoder.RowOf | merde_json/src/jiter_lite/number_decoder.rs:317-339 | row 3 of the table (bytes 0x30–0x3F) has its first ten entries set; every other row is empty |
| NumberDecoder.IntCharMapIsDigit | merde_json/src/jiter_lite/number_decoder.rs:317-339 | `INT_CHAR_MAP` has 256 entries and marks exactly the ASCII digits |
| NumberDecoder.DigitRun | merde_json/src/jiter_lite/number_decoder.rs:301-313 | the maximal run of digits at an index: all digits, taken from the input, and not followed by a digit |
| NumberDecoder.DigitRunSkip | merde_json/src/jiter_lite/number_decoder.rs:301-313 | skipping digits of a run leaves the rest of the same run |
| NumberDecoder.DigitRunAt | merde_json/src/jiter_lite/number_decoder.rs:301-313 | each digit of the run is the input byte at that position |
| NumberDecoder.AccumulateExact | merde_json/src/jiter_lite/number_decoder.rs:300-305 | while at most 19 digits have been read, the wrapping multiply-and-add never wraps and gives the decimal value of the digits |
| NumberDecoder.ValueLast | merde_json/src/jiter_lite/number_decoder.rs:305 | appending a digit multiplies the value by ten and adds the digit |
| NumberDecoder.ValueFits | merde_json/src/jiter_lite/number_decoder.rs:300 | 19 digits stay below 10^19, which is below 2^64 |
| NumberDecoder.WrapStep | merde_json/src/jiter_lite/number_decoder.rs:305 | one wrapping step from a value below 10^18 is the exact step |
| NumberDecoder.ChunkStep | merde_json/src/jiter_lite/number_decoder.rs:301-307 | one loop iteration over a digit extends the accumulated value by that digit |
| NumberDecoder.RunEnds | merde_json/src/jiter_lite/number_decoder.rs:301-313 | the byte at an offset is a digit exactly while the run lasts |
| NumberDecoder.DecodeIntChunkFallback | merde_json/src/jiter_lite/number_decoder.rs:295-315 | reads at most 18 digits, advancing the index by exactly the digits read; after 18 it is `Ongoing`, stopping at `.`, `e` or `E` it is `Float`, and otherwise `Done`, with the decimal value of the digits |
| NumberDecoder.PowMonotone | merde_json/src/jiter_lite/number_decoder.rs:300 | powers of ten grow with the exponent |
| NumberDecoder.Pow10Of18 | merde_json/src/jiter_lite/number_decoder.rs:300 | 10^18 |
| NumberDecoder.Bound18 | merde_json/src/jiter_lite/number_decoder.rs:300 | at most 18 digits stay below 10^18, well inside `i64` |
| NumberDecoder.Parse | merde_json/src/jiter_lite/number_decoder.rs:213-261 | `IntParse::parse` returns what the specification `ParseSpec` states: `NaN`, infinity, a leading zero, a leading 1–9 with its run, and each error |
| NumberDecoder.ParseDigits | merde_json/src/jiter_lite/number_decoder.rs:239-260 | after a non-zero first digit: an integer with the literal's sign, a float, or `NumberOutOfRange` when the run reaches 18 more digits |
| NumberDecoder.DoneValue | merde_json/src/jiter_lite/number_decoder.rs:248-254 | the value a `Done` chunk returns after the first digit is the decimal value of the whole literal, below 10^18 |
| NumberDecoder.TryFrom | merde_json/src/jiter_lite/number_decoder.rs:37-51 | an empty slice is `InvalidNumber` at 0; a parse error is passed on; the slice is accepted exactly when it parses as an integer that ends at its length, and refused as `InvalidNumber` at the end index otherwise |
| NumberDecoder.DecodeNumberInt | merde_json/src/jiter_lite/number_decoder.rs:56-67 | an integer is returned with its end index; a parse error is passed on; any float is `FloatExpectingInt` |
| NumberDecoder.ConsumeInf | merde_json/src/jiter_lite/number_decoder.rs:166-179 | with `allow_inf_nan` off, `Infinity` is `ExpectedSomeValue` when positive and `InvalidNumber` after `-` |
| NumberDecoder.ConsumeNan | merde_json/src/jiter_lite/number_decoder.rs:195-202 | with `allow_inf_nan` off, `NaN` is `ExpectedSomeValue` |
| NumberDecoder.DigitsEnd | merde_json/src/jiter_lite/number_decoder.rs:474-489 | after at least one digit, the index after the whole run |
| NumberDecoder.ConsumeExponential | merde_json/src/jiter_lite/number_decoder.rs:464-490 | `consume_exponential` ends where `ExponentialEnd` states: an optional sign, then one digit or more, with `InvalidNumber` or `EofWhileParsingValue` otherwise |
| NumberDecoder.SkipDigits | merde_json/src/jiter_lite/number_decoder.rs:481-487 | the `while let` loop skips exactly the run of digits |
| NumberDecoder.ConsumeDecimal | merde_json/src/jiter_lite/number_decoder.rs:492-513 | `consume_decimal` ends where `DecimalEnd` states: one digit or more, then an optional exponent |
| NumberDecoder.DecimalStop | merde_json/src/jiter_lite/number_decoder.rs:500-512 | where a fraction's digits stop, an exponent may follow |
| NumberDecoder.AfterDigits | merde_json/src/jiter_lite/number_decoder.rs:417-432 | after the integer digits: a fraction, an exponent, or the end of an integer range |
| NumberDecoder.ScanIntDigits | merde_json/src/jiter_lite/number_decoder.rs:416-433 | the 18 integer digits read one at a time, then the chunked loop |
| NumberDecoder.ScanChunks | merde_json/src/jiter_lite/number_decoder.rs:434-460 | the `loop` over chunks once 18 digits are read: an integer part longer than 4300 bytes is `NumberOutOfRange` at `start + 4301`; otherwise an integer, a fraction or an exponent |
| NumberDecoder.ChunkOutcome | merde_json/src/jiter_lite/number_decoder.rs:435-459 | what one chunk decides: the index stays in the run, and past 4300 bytes the number is out of range |
| NumberDecoder.RunEnd | merde_json/src/jiter_lite/number_decoder.rs:434-460 | the chunked loop ends where the run of digits ends |
| NumberDecoder.DecodeRange | merde_json/src/jiter_lite/number_decoder.rs:367-462 | `NumberRange::decode` returns what `RangeSpec` states: `NaN` and `Infinity` through the guards, a leading zero, a leading 1–9 with fraction and exponent, and each error |
| NumberFacts.RunOfDigits | merde_json/src/jiter_lite/number_decoder.rs:301-313 | a run of digits that stops before a non-digit is the maximal run |
| NumberFacts.LeadingDigit | merde_json/src/jiter_lite/number_decoder.rs:239 | the decimal form of a positive number starts with 1–9 |
| NumberFacts.DigitsOfValue | merde_json/src/jiter_lite/number_decoder.rs:239-254 | a digit string without a leading zero is the decimal form of its value |
| NumberFacts.FormatParses | merde_json/src/jiter_lite/number_decoder.rs:213-261 | every integer below 10^18 in magnitude, written in decimal and not followed by a digit or float mark, parses back to itself, ending just after its last digit |
| NumberFacts.DigitsSpecOf | merde_json/src/jiter_lite/number_decoder.rs:239-254 | after a non-zero first digit, the decimal form of `m` reads as `m`, negated after `-` |
| NumberFacts.DigitsSpecValue | merde_json/src/jiter_lite/number_decoder.rs:244-254 | a run of fewer than 18 more digits with no float mark after it is `Done` with the literal's value |
| NumberFacts.ParsedIsFormat | merde_json/src/jiter_lite/number_decoder.rs:213-261 | every integer `IntParse::parse` accepts was written in decimal there (or as `-0`), is below 10^18 in magnitude, and is followed by neither a digit nor a float mark |
| NumberFacts.SignedLiteral | merde_json/src/jiter_lite/number_decoder.rs:214-227 | a sign, or none, before a decimal form is the decimal form of the signed value |
| NumberFacts.LiteralOf | merde_json/src/jiter_lite/number_decoder.rs:239-254 | the digits accepted after a non-zero first digit: at most 18, no leading zero, the decimal form of the value returned |
| NumberFacts.LiteralRun | merde_json/src/jiter_lite/number_decoder.rs:244-254 | the literal is the first digit followed by its run |
| NumberFacts.DigitsSpecInverse | merde_json/src/jiter_lite/number_decoder.rs:244-257 | what an integer accepted after a first digit was read from |
| NumberFacts.WholeSliceIsInt | merde_json/src/jiter_lite/number_decoder.rs:37-51 | a slice parses at index 0 as the integer `n` ending at its length exactly when it is the decimal literal of `n` and `n` is below 10^18 in magnitude |
| NumberFacts.NineteenDigitsOutOfRange | merde_json/src/jiter_lite/number_decoder.rs:244-260 | an integer part of 19 digits or more is `NumberOutOfRange`, whatever follows |
| NumberFacts.RangeLeads | merde_json/src/jiter_lite/number_decoder.rs:373-414 | `NumberRange::decode` past the optional sign |
| NumberFacts.ParseLeads | merde_json/src/jiter_lite/number_decoder.rs:214-242 | `IntParse::parse` past the optional sign |
| NumberFacts.DigitsSlice | merde_json/src/jiter_lite/number_decoder.rs:417-421 | digits between two indices make a digit string |
| NumberFacts.DigitsExtend | merde_json/src/jiter_lite/number_decoder.rs:417-421 | a digit before a run of digits extends it |
| NumberFacts.RunSpan | merde_json/src/jiter_lite/number_decoder.rs:417-421 | the run of digits as an index range |
| NumberFacts.FracSlice | merde_json/src/jiter_lite/number_decoder.rs:492-513 | a fraction in the input is a fraction of the grammar |
| NumberFacts.ExpSlice | merde_json/src/jiter_lite/number_decoder.rs:464-490 | an exponent in the input is an exponent of the grammar |
| NumberFacts.UnsignedAt | merde_json/src/jiter_lite/number_decoder.rs:388-460 | three adjacent parts of the input, integer, fraction and exponent, make an unsigned number of the grammar |
| NumberFacts.SignedAt | merde_json/src/jiter_lite/number_decoder.rs:375-386 | an optional minus before an unsigned number makes a number |
| NumberFacts.ExponentGrammar | merde_json/src/jiter_lite/number_decoder.rs:464-490 | the bytes `consume_exponential` accepts form an exponent, and no digit follows |
| NumberFacts.DecimalGrammar | merde_json/src/jiter_lite/number_decoder.rs:492-513 | the bytes `consume_decimal` accepts form a fraction and an optional exponent, and no digit follows |
| NumberFacts.AfterGrammar | merde_json/src/jiter_lite/number_decoder.rs:417-432 | after the integer part, a fraction and an exponent; the range is an integer exactly when both are empty |
| NumberFacts.ZeroGrammar | merde_json/src/jiter_lite/number_decoder.rs:389-405 | after a leading `0`, the bytes read form an unsigned number |
| NumberFacts.IntGrammar | merde_json/src/jiter_lite/number_decoder.rs:411-460 | after a leading 1–9, the bytes read form an unsigned number |
| NumberFacts.LeadCases | merde_json/src/jiter_lite/number_decoder.rs:388-414 | without `allow_inf_nan`, a number read past its sign starts with a digit |
| NumberFacts.RangeIsNumber | merde_json/src/jiter_lite/number_decoder.rs:367-462 | without `allow_inf_nan`, `NumberRange::decode` succeeds only on a number of the grammar in section 6 of RFC 8259, reports an integer exactly when it has neither fraction nor exponent, and stops where no digit follows |
| NumberFacts.LeadIsNumber | merde_json/src/jiter_lite/number_decoder.rs:388-460 | the same, from the first digit after the sign |
| NumberFacts.RangeAgreesWithParse | merde_json/src/jiter_lite/number_decoder.rs:213-261 | on every integer `IntParse::parse` accepts, `NumberRange::decode` reports an integer range of the same extent, with or without `allow_inf_nan` |
| NumberFacts.LeadRangeAgrees | merde_json/src/jiter_lite/number_decoder.rs:388-433 | the same, from the first digit after the sign |
| NumberFacts.DigitsAgree | merde_json/src/jiter_lite/number_decoder.rs:295-315 | after a leading 1–9 the two scanners read the same digits |
| NumberFacts.ParseAgreesWithRange | merde_json/src/jiter_lite/number_decoder.rs:367-462 | conversely, an integer range of at most 18 digits is an integer `IntParse::parse` accepts with the same extent, and a longer one is `NumberOutOfRange` for it |
| NumberFacts.LeadAgrees | merde_json/src/jiter_lite/number_decoder.rs:388-460 | the same, from the first digit after the sign |
| NumberFacts.ZeroAgrees | merde_json/src/jiter_lite/number_decoder.rs:389-405 | after a leading `0`, an integer range is the integer 0 for `IntParse::parse` too |
| LazyIndex.BuildMap | merde/src/lazyindexmap.rs:124-132 | the lookup map built from the vector sends each of its keys to an index of the vector holding that key |
| LazyIndex.BuildMapLast | merde/src/lazyindexmap.rs:124-132 | the built map holds exactly the vector's keys, each at its last occurrence (collecting overwrites earlier indices) |
| LazyIndex.LenCountsKeys | merde/src/lazyindexmap.rs:75-77 | the size of a freshly built map is the number of distinct keys, and zero exactly for the empty vector |
| LazyIndex.BuildMapPush | merde/src/lazyindexmap.rs:66-73 | re-pointing the key at the old length in a built map gives the map of the extended vector |
| LazyIndex.Reached | merde/src/lazyindexmap.rs:96-97 | the circular scan `i % vec_len` from `last_find + 1` reaches every index within one turn |
| LazyIndex.FirstFrom | merde/src/lazyindexmap.rs:94-104 | what the `get` scan returns is an index whose entry has the key |
| LazyIndex.LastBefore | merde/src/lazyindexmap.rs:154-162 | what the `remove` scan keeps is an index whose entry has the key |
| LazyIndex.FirstFromNone | merde/src/lazyindexmap.rs:96-104 | the `get` scan from an offset finds nothing exactly when no remaining offset holds the key |
| LazyIndex.LastBeforeNone | merde/src/lazyindexmap.rs:155-162 | the `remove` scan over the first offsets finds nothing exactly when none of them holds the key |
| LazyIndex.AllOffsets | merde/src/lazyindexmap.rs:96-98 | no offset of the circular order sees the key exactly when the vector lacks it |
| LazyIndex.FirstFromFinds | merde/src/lazyindexmap.rs:94-104 | the full `get` scan finds the key exactly when it is present |
| LazyIndex.LastBeforeFinds | merde/src/lazyindexmap.rs:154-167 | the full `remove` scan finds the key exactly when it is present |
| LazyIndex.FirstFromIsFirst | merde/src/lazyindexmap.rs:96-102 | the `get` scan returns at the first matching offset: no earlier offset holds the key |
| LazyIndex.LastBeforeIsLast | merde/src/lazyindexmap.rs:155-162 | the `remove` scan does not stop at a match, so it keeps the last matching offset of the circle |
| LazyIndex.SwapRemoveTakesOne | merde/src/lazyindexmap.rs:169-175 | swapping with the last entry and popping removes exactly the chosen entry and keeps every other position below the end |
| LazyIndex.KeptIndexed | merde/src/lazyindexmap.rs:194-206 | each entry `iter_unique` yields sits at the index the map gives its key, in increasing index order |
| LazyIndex.KeptComplete | merde/src/lazyindexmap.rs:194-206 | every key whose mapped index has been passed has been yielded |
| LazyIndex.UniqueDistinct | merde/src/lazyindexmap.rs:116-122 | `iter_unique` yields no key twice |
| LazyIndex.UniqueLast | merde/src/lazyindexmap.rs:116-122 | `iter_unique` yields for each key the entry of its last occurrence |
| LazyIndex.UniqueKeys | merde/src/lazyindexmap.rs:116-122 | `iter_unique` yields every key of the vector, as many entries as `len` counts |
| LazyIndex.DistinctCount | merde/src/lazyindexmap.rs:116-122 | entries with pairwise distinct keys have as many keys as entries |
| LazyIndex.KeysOf | merde/src/lazyindexmap.rs:108-110 | the keys in vector order, duplicates included |
| LazyIndex.LazyIndexMap.constructor | merde/src/lazyindexmap.rs:58-64 | an empty vector, no map built, `last_find` zero |
| LazyIndex.LazyIndexMap.Insert | merde/src/lazyindexmap.rs:66-73 | appends the pair, re-points the key in a built map, and keeps a built map current |
| LazyIndex.LazyIndexMap.GetMap | merde/src/lazyindexmap.rs:124-132 | builds the map from the vector on first use and returns the built one afterwards |
| LazyIndex.LazyIndexMap.Len | merde/src/lazyindexmap.rs:75-77 | the size of the (possibly just built) map; over a current map, the number of distinct keys |
| LazyIndex.LazyIndexMap.IsEmpty | merde/src/lazyindexmap.rs:79-81 | true exactly when the vector holds no key |
| LazyIndex.LazyIndexMap.Keys | merde/src/lazyindexmap.rs:108-110 | every key in insertion order, duplicates included |
| LazyIndex.LazyIndexMap.Equals | merde/src/lazyindexmap.rs:179-183 | equal exactly when the vectors agree entry by entry; map and `last_find` play no part |
| LazyIndex.LazyIndexMap.Get | merde/src/lazyindexmap.rs:83-106 | up to 16 entries, whatever state the lookup map is in: the first match of the scan from `last_find + 1`, remembered in `last_find`, and absent exactly when the key is not in the vector; beyond, the entry at the index the (possibly stale) map holds for the key, absent when the map lacks it, the map built if it was not; over a current map that is the last entry with the key, absent exactly when the key is not in the vector; the map stays current, and its indices stay readable |
| LazyIndex.LazyIndexMap.IterUnique | merde/src/lazyindexmap.rs:116-122 | builds the map if it is not built and yields exactly the entries sitting at their key's mapped index, stale map or not; over a current map, one entry per key, the last |
| LazyIndex.LazyIndexMap.Remove | merde/src/lazyindexmap.rs:144-176 | up to 16 entries: none exactly when the key is absent; otherwise the value at the last match of the scan, removed by swap-and-pop, with `last_find` at that index and the lookup map untouched |
| LazyIndex.RemoveLeavesLenStale | merde/src/lazyindexmap.rs:144-176 | after `len` built the map of two keys, `remove` of one leaves one key but `len` still 2, `iter_unique` yields nothing, and `get` still finds the remaining key |
| LazyIndex.RemoveAfterLen | merde/src/lazyindexmap.rs:144-176 | after `insert(0)`, `insert(1)` and `len`, `remove(0)` leaves one entry while the built map still holds index 0 for key 0 and index 1 for key 1 |
| LazyIndex.StaleGetReadsOtherKey | merde/src/lazyindexmap.rs:83-106 | after that removal and 16 inserts of new keys, beyond 16 entries `get(1)` returns key 101's value and `get(0)` returns key 1's value, though key 0 is no longer in the vector |
| LazyIndex.LazyIndexMap.RemoveRefreshed | merde/src/lazyindexmap.rs:144-176 | the same removal, after which the map is dropped so the object stays consistent |
| LazyIndex.RefreshedLenCounts | merde/src/lazyindexmap.rs:144-176 | with the corrected removal the same calls count one key |
| LegacyJson.FieldTypeOneToOne | src/error.rs:129-142 | two values report the same `JsonFieldType` exactly when they are the same variant |
| LegacyJson.U64Json | src/lib.rs:496-512 | `u64` yields only values within `0..=u64::MAX` |
| LegacyJson.I64Json | src/lib.rs:547-563 | `i64` yields only values within the `i64` range |
| LegacyJson.UsizeJson | src/lib.rs:565-582 | `usize` yields only values within `0..=i64::MAX`, having gone through `i64` |
| LegacyJson.IntJson | src/lib.rs:463-582 | every integer type yields only values in its own range |
| LegacyJson.IntNarrowing | src/lib.rs:463-582 | an `Int(n)` becomes every integer type exactly when `n` fits it, and is `OutOfRange` otherwise |
| LegacyJson.IntMismatch | src/lib.rs:496-582 | a value that is not `Int`, `Float` or `BigInt` is a mismatch naming `Int` and what was found; a `BigInt` is a mismatch for `usize`; absence is `MissingValue` |
| LegacyJson.BigIntNarrowing | src/lib.rs:496-563 | a `BigInt` becomes every integer type but `usize` exactly when it fits, and is `OutOfRange` otherwise |
| LegacyJson.OptionSpec | src/lib.rs:599-611 | `Null` and absence give `None`; anything else gives `Some` of the inner result or the inner error |
| LegacyJson.FirstFailure | src/lib.rs:618-623 | the first element that fails to convert: every earlier one converts |
| LegacyJson.VecSpec | src/lib.rs:613-631 | a non-array is a mismatch naming `Array`, absence is `MissingValue`; an array converts exactly when every element does, element by element, and otherwise gives the first failing element's error |
| LegacyJson.ElementsSpec | src/lib.rs:619-623 | collecting the element results succeeds exactly when all succeed, in order, and otherwise stops at the first error |
| LegacyJson.Insert | src/lib.rs:647 | `HashMap::insert` holds the new pair, keeps every entry with another key, and adds nothing else |
| LegacyJson.DeserializeHashMap | src/lib.rs:633-658 | the `for` loop over the members computes the recursive definition of the `HashMap` conversion |
| LegacyJson.MembersOkSpec | src/lib.rs:642-650 | the map conversion succeeds exactly when every key parses and every value converts; an unparsable first key is `InvalidKey` |
| LegacyJson.MissingValueOnlyWhenAbsent | src/lib.rs:428-670 | `MissingValue` comes exactly from an absent value given to a type other than `Option`, never from a nested element |
| LegacyJson.ElementsNeverMissing | src/lib.rs:619-623 | a vector's elements never report `MissingValue` |
| LegacyJson.MembersNeverMissing | src/lib.rs:642-650 | a map's members never report `MissingValue` |
| LegacyJson.PassThrough | src/lib.rs:428-670 | `JsonValue` clones what is present; `&str` and `Cow<str>` take a string keeping its `Cow` variant; a non-string or non-bool is a mismatch naming what was found |
| LegacyJson.AsObject | src/lib.rs:696-704 | succeeds exactly on an object, giving its members; otherwise a mismatch naming `Object` |
| LegacyJson.AsArray | src/lib.rs:706-714 | succeeds exactly on an array, giving its items; otherwise a mismatch naming `Array` |
| LegacyJson.AsCowStr | src/lib.rs:716-724 | succeeds exactly on a string, giving it; otherwise a mismatch naming `String` |
| LegacyJson.AsI64 | src/lib.rs:726-734 | succeeds exactly on an `Int`, giving it; otherwise a mismatch naming `Int` |
| LegacyJson.AccessorsInvert | src/lib.rs:696-734 | each accessor gives back the payload of the variant it expects |
| LegacyJson.ObjectGetFinds | merde/src/lazyindexmap.rs:83-106 | an object lookup finds a value exactly when a member has the key, and the value is that member's |
| LegacyJson.HintIrrelevant | merde/src/lazyindexmap.rs:94-104 | with no repeated key, the remembered `last_find` does not change what a lookup finds |
| LegacyJson.MustGet | src/lib.rs:1083-1088 | `must_get` never reports `MissingValue` and succeeds exactly when the conversion of the lookup does, with its result |
| LegacyJson.MustGetSpec | src/lib.rs:1083-1088 | a missing key is `MissingProperty(key)` unless the type is an `Option`, which gives `None`; a present key gives the conversion of its value |
| LegacyJsonWriter.DecimalText | src/lib.rs:921 | `to_string` of a big integer is its decimal form, character for byte |
| LegacyJsonWriter.JsonSerializer.constructor | src/lib.rs:753-756 | a new serializer starts with an empty buffer |
| LegacyJsonWriter.JsonSerializer.FromVec | src/lib.rs:748-751 | `from_vec` writes after what the given vector holds |
| LegacyJsonWriter.JsonSerializer.WriteNull | src/lib.rs:758-761 | appends `null` |
| LegacyJsonWriter.JsonSerializer.WriteBool | src/lib.rs:763-767 | appends `true` or `false` as the value is |
| LegacyJsonWriter.JsonSerializer.WriteI64 | src/lib.rs:769-773 | appends the decimal form of the value, `-` first when negative |
| LegacyJsonWriter.JsonSerializer.WriteF64 | src/lib.rs:775-778 | appends the UTF-8 of the float's `Display` text |
| LegacyJsonWriter.JsonSerializer.WriteStr | src/lib.rs:780-797 | appends a quote, the escape of each character in order, and a quote |
| LegacyJsonWriter.JsonSerializer.WriteEscaped | src/lib.rs:783-795 | the loop over the characters appends exactly their escapes, in order |
| LegacyJsonWriter.JsonSerializer.WriteObj | src/lib.rs:799-808 | appends `{` and returns a fresh guard on this serializer expecting its first pair |
| LegacyJsonWriter.JsonSerializer.WriteArr | src/lib.rs:810-819 | appends `[` and returns a fresh guard on this serializer expecting its first element |
| LegacyJsonWriter.JsonSerializer.IntoInner | src/lib.rs:821-824 | gives back exactly the bytes written |
| LegacyJsonWriter.ObjectGuard.constructor | src/lib.rs:804-807 | a guard on the serializer, expecting the first pair |
| LegacyJsonWriter.ObjectGuard.Pair | src/lib.rs:833-846 | appends `,` unless first, then the quoted key, `:` and the value's text, and is no longer first |
| LegacyJsonWriter.ObjectGuard.Drop | src/lib.rs:848-853 | dropping the guard appends `}` |
| LegacyJsonWriter.ArrayGuard.constructor | src/lib.rs:815-818 | a guard on the serializer, expecting the first element |
| LegacyJsonWriter.ArrayGuard.Elem | src/lib.rs:861-872 | appends `,` unless first, then the value's text, and is no longer first |
| LegacyJsonWriter.ArrayGuard.Drop | src/lib.rs:874-879 | dropping the guard appends `]` |
| LegacyJsonWriter.Serialize | src/lib.rs:915-1061 | every `json_serialize` appends exactly the text `Text` gives its value, integers cast to `i64`, and nothing else |
| LegacyJsonWriter.SerializeArray | src/lib.rs:924-929 | a jiter array is written as `[`, its items' texts separated by `,`, and `]` |
| LegacyJsonWriter.FeedArray | src/lib.rs:926-928 | the loop of `elem` calls appends the items' texts separated by `,` |
| LegacyJsonWriter.SerializeObject | src/lib.rs:930-935 | a jiter object is written as `{`, its `"key":value` members separated by `,`, and `}` |
| LegacyJsonWriter.FeedObject | src/lib.rs:932-934 | the loop of `pair` calls appends the members separated by `,` |
| LegacyJsonWriter.SerializePairs | src/lib.rs:1018-1025 | a `HashMap` or slice of pairs is written as `{`, its members in iteration order, and `}` |
| LegacyJsonWriter.FeedPairs | src/lib.rs:1054-1061 | the loop of `pair` calls appends the entries' members separated by `,` |
| LegacyJsonWriter.SerializeItems | src/lib.rs:1027-1034 | a `Vec` or slice is written as `[`, its elements' texts separated by `,`, and `]` |
| LegacyJsonWriter.FeedItems | src/lib.rs:1045-1052 | the loop of `elem` calls appends the elements' texts separated by `,` |
| LegacyJsonWriter.WriteInteger | src/lib.rs:952-1010 | every integer impl appends the decimal form of the value cast to `i64`, as `write_i64(*self as i64)` does |
| LegacyJsonWriter.ToJsonBytes | src/lib.rs:900-905 | `to_json_bytes` is exactly the reference text of the value |
| LegacyJsonWriter.ToJsonString | src/lib.rs:907-912 | `to_json_string` is the string whose UTF-8 is the reference text, so skipping the UTF-8 check is sound |
| LegacyJsonWriter.FormatIsAscii | src/lib.rs:769-773 | the decimal form of an integer is ASCII |
| LegacyJsonWriter.QuotedIsUtf8 | src/lib.rs:780-797 | a quoted, escaped string is valid UTF-8 |
| LegacyJsonWriter.MemberIsUtf8 | src/lib.rs:836-845 | a `"key":value` member is valid UTF-8 when its value is |
| LegacyJsonWriter.ValueTextIsUtf8 | src/lib.rs:915-938 | the text of any jiter value is valid UTF-8 |
| LegacyJsonWriter.TextIsUtf8 | src/lib.rs:907-912 | whatever is serialized, the bytes are valid UTF-8, the premise of `from_utf8_unchecked` |
| LegacyJsonWriter.BigIntQuoted | src/lib.rs:921 | a `BigInt` is written as its decimal form between quotes |
| LegacyJsonWriter.PlainEscape | src/lib.rs:793 | digits and `-` are written unescaped, as their ASCII bytes |
| LegacyJsonWriter.AsI64 | src/lib.rs:970-974 | `as i64` keeps values in the `i64` range and subtracts 2^64 from those above it |
| LegacyJsonWriter.U64WrapsNegative | src/lib.rs:970-974 | the written text equals the intended decimal form up to `i64::MAX`, but `u64::MAX` comes out as `-1` and every larger value, only ever a `u64` or `usize`, with a leading `-` the intended form lacks |
| LegacyJsonWriter.WrittenIntDenotes | src/lib.rs:952-1010 | the written text of an integer denotes the value up to `i64::MAX` and the value less 2^64 above it |
| LegacyJsonWriter.IntTextDenotes | src/lib.rs:887-889 | the intended text of every integer denotes it: its digits are the value, after a `-` for a negative one |
| LegacyJsonWriter.OptionAndEmpty | src/lib.rs:1036-1043 | `Some` writes the inner value alone, `None` writes `null`, and empty maps and lists are `{}` and `[]` |

## Left out

- The asynchronous plumbing is not modelled:
  - the `async` serializer and deserializer traits;
  - `DynSerialize` boxing;
  - `send_future`;
  - the metastack, which queries OS stack bounds through FFI;
  - the `std::io::Write` and tokio writers behind the JSON serializers.

  Every `write`/`next` is modelled as a synchronous method on an in-memory buffer or sink.
- The JSON parsers and tree builders driven by jiter's `Parser`, the YAML adapter, the declarative macros, the date/time wrappers and the type-level lifetime machinery are left out. They have no logic of their own here, or the code they rely on is not part of this model.
- `NumberFloat::decode` and `NumberAny::decode` are left out. They parse floats through `lexical`, which is not part of this model.
- jiter's `consume_infinity` and `consume_nan` scans are function parameters of `NumberDecoder`. Only the guards around them are modelled.
- Float arithmetic and float formatting are not modelled. A float is its bit pattern, and `ryu::Buffer::format` and `Display for f64` are function parameters.
- Error `Display` texts are left out. jiter's parser error and the I/O error are opaque payloads.
- `Map`'s `Hash` impl is left out, as is anything else that depends on the actual `HashMap` iteration order. That order is one admissible order, the order of the association list.
- `OnceLock` and `AtomicUsize` in `LazyIndexMap` are plain fields. Concurrent access is not modelled.
- LazyIndex.LazyIndexMap.Remove: models only the path for at most 16 entries (`requires |vec| <= THRESHOLD`). The other path calls `remove` through the shared reference `get_map` returns, so it does not type-check as written. `get_map_mut` is left out for the same reason.
- LazyIndex.LazyIndexMap.RemoveRefreshed: the same restriction to at most 16 entries.
- `Deserialize.Target` has no `f32` or `f64` target, so the float `ValueDeserialize` impls (merde_core/src/deserialize.rs:237-263) are left out. A float is an opaque bit pattern here, and the float conversions they perform (`as f32`, `i64 as f64`) are not modelled. The float-to-integer coercions of the integer targets are modelled.
- `Deserialize.Target`'s tuple target accepts any number of parts. Rust implements `ValueDeserialize` for tuples of 1 to 8 elements only, and a longer tuple does not compile.
- The number decoder's SIMD `decode_int_chunk` for aarch64 is left out. It is a platform alternative of `decode_int_chunk_fallback`, which is modelled.

## Findings

| source | as written | input that shows it | evidently intended | confidence | as-written member | corrected member |
|---|---|---|---|---|---|---|
| merde/src/lazyindexmap.rs:144-176 | `remove` on a map of at most 16 entries swaps and pops the vector but leaves an already built lookup map as it was, so `len` keeps counting the removed key | `insert("a", 1)`, `insert("b", 2)`, `len()` gives 2; `remove("a")` leaves one entry, yet `len()` still gives 2 | the lookup map is dropped (or re-pointed) on removal, so that `len` counts the keys that remain | not executed | LazyIndex.RemoveLeavesLenStale | LazyIndex.LazyIndexMap.RemoveRefreshed |
| src/lib.rs:970-974 | `u64` (and `usize`) is written through `write_i64(*self as i64)`, which wraps values above `i64::MAX` | `u64::MAX.to_json_string()` gives `-1`; 2^63 gives `-9223372036854775808` | every integer is written as its own decimal form, as the doc comment at src/lib.rs:887-889 describes | not executed | LegacyJsonWriter.U64WrapsNegative | LegacyJsonWriter.IntTextDenotes |

The operations themselves follow the code as written. The corrected behaviours sit beside them:

- `LazyIndex.LazyIndexMap.Remove` leaves the lookup map stale. `LazyIndex.RemoveLeavesLenStale` shows that `len` keeps counting the removed key and that `iter_unique` then drops the remaining one. Beyond 16 entries `get` reads the vector at the stale index: `LazyIndex.StaleGetReadsOtherKey` shows it returning another key's value and finding a removed key. `LazyIndex.LazyIndexMap.Bounded`, kept by every operation, shows that the stale index still lies inside the vector there. `LazyIndex.RefreshedLenCounts` replays the same calls against `RemoveRefreshed`, and `len` gives 1.
- `LegacyJsonWriter.Serialize` writes integers through `LegacyJsonWriter.WriteInteger`, which casts to `i64` as the source does. `LegacyJsonWriter.IntendedIntText` is the value's own decimal form, and `LegacyJsonWriter.IntTextDenotes` is proved about it.
