# miniser in Dafny

A model of miniser, a header-only C++ codec between typed values and yyjson's
value tree. The model covers three parts:

- the decoder, `deserialize(std::type_identity<T>, value, ctx)`, in
  include/miniser/deser.hpp;
- the encoder, `serialize(value, doc)`, in include/miniser/ser.hpp;
- the field-name policies, `rename`, `name_of_field` and the camel/snake
  converters, in include/miniser/detail/names.hpp.

The model has one module per concern:

- `Names` (names.dfy) holds the casing policies. `CamelName` and `SnakeName`
  specify the two converters. The methods `CamelCountLen`, `CamelConvert`,
  `SnakeCountLen` and `SnakeConvert` keep the source's loops and its
  NUL-padded `std::array<char, L + 1>` buffer, and are proved to compute those
  functions. Lemmas describe the converters against independent definitions:
  `WithoutUnderscores`, `Lowered` and `UpperRuns`.
- `JsonTree` (json.dfy) holds the value tree as yyjson presents it. It has
  the two 64-bit integer subtypes, `yyjson_get_sint` (which reads the payload
  as two's complement) and `yyjson_obj_getn`. The NULL pointer of a missing
  key is the `None` node.
- `Types` (types.dfy) holds the target types, the typed values and the
  integer limits.
- `Decoder` (deser.dfy) holds `Deser`, one specification function for every
  target type. The methods `Decode`, `DecodeVector` and `DecodeRecord` keep
  the source's loops: the iterator loop that returns on the first failure,
  and the `ok`-flag loop over the fields. They are proved to compute `Deser`.
- `Encoder` (ser.dfy) holds `Ser`, the encoder with every node allocation
  able to fail. The allocator is an oracle: a sequence of outcomes, where the
  empty sequence never fails. The methods `Serialize`, `SerializeVector` and
  `SerializeRecord` keep the source's loops and are proved to compute `Ser`.
  `Encode` is the tree built when nothing fails.
- `RoundTrip` (roundtrip.dfy) states how decoding and encoding fit together,
  and where they do not.
- `Scenarios` (scenarios.dfy) states the scenarios of tests/deser.cpp,
  tests/ser.cpp and examples/rename.cpp as lemmas; those of tests/rename.cpp
  are in `Names` and `RoundTrip`. Where a test uses particular numbers and
  strings, the lemma takes them as parameters. Test inputs that the text
  parser rejects (`True`) and the formatting of written text are outside the
  model.

Behaviour the model takes from the code:

- **Optional targets never fail.** `deserialize(std::optional<T>)` returns
  the inner `std::optional<T>` itself. That value converts to an engaged
  outer optional, so an inner failure gives an empty optional. A missing key
  reaches the inner decoder as NULL, fails there, and also gives an empty
  optional. tests/deser.cpp:145-153 expects exactly this
  (`OptionalNeverFails`, `MaybeNestedWithoutP`,
  `MaybeNestedAbsorbsInnerFailure`).
- **The decoder ignores the renaming policy.** It looks each field up by its
  declared name, `boost::pfr::get_name` (deser.hpp:109). The encoder writes
  `name_of_field` under the record's policy (ser.hpp:83). As a result a camel
  or snake record whose key changes does not decode from its own encoding.
  `RenamedFieldIsLost`, `CamelLosesUnderscoredField`,
  `SnakeLosesCapitalisedField`, `CamelRecordDoesNotRoundTrip`,
  `SnakeRecordDoesNotRoundTrip` and `NestedPoliciesDoNotDecode` state this.
  tests/rename.cpp:54 and :62, and examples/rename.cpp:30-33, expect renamed
  keys on input; the code as written does not accept them. The round trip
  (`RoundTrip`) is proved for records that keep their declared names, as the
  code supports.
- **The encoder drops fields silently.** When a field's key or value cannot
  be allocated, the record encoder leaves that field out and goes on
  (ser.hpp:84-91). The object still comes back. `SerRecordKeepsGoing` states
  that the object exists exactly when its own allocation succeeds, and that
  its keys are a subsequence of the declared keys. `SerFieldsStep` states
  which fields are kept: a field adds its member exactly when both its key and
  its value are built. `RecordDropsFailedField` shows a one-field record
  encoding to `{}` when the field's key, or its value, cannot be allocated.
- **`check_range` tests the wrapped payload.** For a signed target the range
  check looks at `yyjson_get_sint`, the payload read as two's complement. An
  unsigned node of 2^63 or more reads as a negative number first. So 2^63
  passes `check_range` into `int64_t` as -2^63, and 2^64 - 1 passes into
  `int8_t` as -1 (`CheckRangeSeesWrappedPayload`). tests/deser.cpp:45-47
  uses 2^64 as the 64-bit overflow literal, with a TODO about this
  behaviour. The model keeps the code as written.

## Model

| member | source | states |
|---|---|---|
| Names.DefaultRename | include/miniser/detail/names.hpp:9 | a type that does not specialise `rename_fields` gets the policy under which every field's key is its declared name |
| Names.IsUpper | include/miniser/detail/names.hpp:24 | a character is upper-case exactly when it lies in `'A'..'Z'` |
| Names.IsLower | include/miniser/detail/names.hpp:25 | a character is lower-case exactly when it lies in `'a'..'z'` |
| Names.ToUpper | include/miniser/detail/names.hpp:27-32 | a lower-case ASCII letter becomes the letter 32 code points below, which is upper-case; every other character is unchanged |
| Names.ToLower | include/miniser/detail/names.hpp:34-39 | an upper-case ASCII letter becomes the letter 32 code points above, which is lower-case; every other character is unchanged |
| Names.CaseMapsAgree | include/miniser/detail/names.hpp:24-39 | the two case maps agree after lowering, neither creates or removes `_`, and lowering leaves no upper-case letter |
| Names.WithoutUnderscores | include/miniser/detail/names.hpp:43-51 | the reference for the camel count: the name with every `_` removed, no longer than the name |
| Names.UpperRuns | include/miniser/detail/names.hpp:83-98 | the reference for the snake count: the number of maximal runs of upper-case letters, at most the length |
| Names.UpToNul | include/miniser/detail/names.hpp:132-138 | the `string_view` of `.data()`: the longest NUL-free prefix, ended by a NUL or the buffer's end |
| Names.CamelLength | include/miniser/detail/names.hpp:53-72 | the camel rewrite of a name is exactly as long as the name without underscores |
| Names.CamelLetters | include/miniser/detail/names.hpp:53-72 | the camel rewrite has no `_`, and, ignoring case, spells the name without its underscores |
| Names.CamelFrom | include/miniser/detail/names.hpp:53-72 | the camel loop's output from a given `was_underscore` state; its properties are the lemmas `CamelLength`, `CamelLetters`, `CamelAppend` and `CamelStep` |
| Names.CamelName | include/miniser/detail/names.hpp:53-72 | the camel key of a name has no `_` and one character per non-`_` character of the name |
| Names.CamelAppend | include/miniser/detail/names.hpp:57-68 | the camel loop over two pieces is the loop over the first followed by the loop over the second from the state the first left |
| Names.CamelStep | include/miniser/detail/names.hpp:57-68 | one iteration extends the key of the prefix read so far, sets `was_underscore` to whether the character was `_`, and stays within the whole key |
| Names.CamelUnchanged | include/miniser/detail/names.hpp:53-72 | a name without `_` is its own camel rewrite |
| Names.CamelAfterUnderscore | include/miniser/detail/names.hpp:59-66 | an `_` is dropped and the character after it is upper-cased |
| Names.CamelKeeps | include/miniser/detail/names.hpp:63-68 | a character not after an `_` is copied unchanged |
| Names.CamelCountLen | include/miniser/detail/names.hpp:43-51 | the loop counts the non-`_` characters, which is the length of the camel rewrite |
| Names.CamelConvert | include/miniser/detail/names.hpp:53-72 | the loop fills an `L + 1` buffer with the camel rewrite followed by NULs |
| Names.SnakeLength | include/miniser/detail/names.hpp:83-121 | the snake rewrite is the name's length plus one per run of capitals |
| Names.SnakeNoUpper | include/miniser/detail/names.hpp:100-121 | the snake rewrite has no upper-case letter |
| Names.SnakeOnlyInserts | include/miniser/detail/names.hpp:100-121 | with underscores removed, the snake rewrite is the lower-cased name with underscores removed: the rewrite only inserts `_` |
| Names.SnakeFrom | include/miniser/detail/names.hpp:100-121 | the snake loop's output from a given `was_upper` state; its properties are the lemmas `SnakeLength`, `SnakeNoUpper`, `SnakeOnlyInserts` and `SnakeStep` |
| Names.SnakeName | include/miniser/detail/names.hpp:100-121 | the snake key of a name has no upper-case letter |
| Names.SnakeAppend | include/miniser/detail/names.hpp:105-118 | the snake loop over two pieces is the loop over the first followed by the loop over the second from the state the first left |
| Names.SnakeStep | include/miniser/detail/names.hpp:105-118 | one iteration extends the key of the prefix read so far, sets `was_upper` to whether the character was a capital, and stays within the whole key |
| Names.SnakeUnchanged | include/miniser/detail/names.hpp:100-121 | a name without capitals is its own snake rewrite |
| Names.SnakeRunStart | include/miniser/detail/names.hpp:106-112 | the first capital of a run is written as `_` and its lower case |
| Names.SnakeRunInside | include/miniser/detail/names.hpp:106-112 | a capital inside a run is only lower-cased |
| Names.SnakeKeeps | include/miniser/detail/names.hpp:113-117 | a non-capital is copied unchanged, and ends a run |
| Names.SnakeCountLen | include/miniser/detail/names.hpp:83-98 | the loop counts the length plus the runs of capitals, which is the length of the snake rewrite |
| Names.SnakeConvert | include/miniser/detail/names.hpp:100-121 | the loop fills an `L + 1` buffer with the snake rewrite followed by NULs |
| Names.NameOfField | include/miniser/detail/names.hpp:132-138 | `none` keeps the declared name; camel has no `_`, the length without underscores and the same letters ignoring case; snake has no capital, one extra character per run, and the lowered letters |
| Names.KeyUpToNul | include/miniser/detail/names.hpp:132-138 | a NUL-free key followed only by NULs is read back from the buffer exactly |
| Names.StoredNameOfField | include/miniser/detail/names.hpp:74-138 | counting, converting into the buffer and viewing `.data()` gives `name_of_field` for every policy |
| Names.CamelNoNul | include/miniser/detail/names.hpp:53-72 | the camel rewrite of a NUL-free name has no NUL, so `.data()` sees all of it |
| Names.SnakeNoNul | include/miniser/detail/names.hpp:100-121 | the snake rewrite of a NUL-free name has no NUL |
| Names.CamelOneUnderscore | include/miniser/detail/names.hpp:53-72 | a name with one `_` loses it and upper-cases the letter after it |
| Names.CamelExampleMyInt | include/miniser/detail/names.hpp:53-72 | `my_int` is `myInt` under the camel rewrite |
| Names.CamelExampleMySecondInt | include/miniser/detail/names.hpp:53-72 | `mySecondInt` is unchanged under the camel rewrite |
| Names.CamelExamples | tests/rename.cpp:49-51 | under camel case, `name_of_field` of `my_int` is `myInt`, and of `mySecondInt` is `mySecondInt` |
| Names.SnakeOneCapital | include/miniser/detail/names.hpp:100-121 | a name with one capital gets `_` and the lower case in its place |
| Names.SnakeOfInt | include/miniser/detail/names.hpp:100-121 | appending `Int` to a name that ends in a non-capital appends `_int` to its snake rewrite |
| Names.SnakeExampleMyInt | include/miniser/detail/names.hpp:100-121 | `my_int` is unchanged under the snake rewrite |
| Names.SnakeExampleMySecond | include/miniser/detail/names.hpp:100-121 | `mySecond` is `my_second` under the snake rewrite |
| Names.SnakeExampleMySecondInt | include/miniser/detail/names.hpp:100-121 | `mySecondInt` is `my_second_int` under the snake rewrite |
| Names.SnakeExampleYourInt | include/miniser/detail/names.hpp:100-121 | `yourInt` is `your_int` under the snake rewrite |
| Names.SnakeOfIntKey | include/miniser/detail/names.hpp:100-121 | when a name ending in a non-capital has key `k`, the name followed by `Int` has key `k` followed by `_int` |
| Names.SnakeExamples | tests/rename.cpp:57-59 | under snake case, `name_of_field` of `my_int`, `mySecondInt` and `yourInt` is `my_int`, `my_second_int` and `your_int` |
| JsonTree.IsNull | include/miniser/deser.hpp:251 | `yyjson_is_null`: the node is present and null |
| JsonTree.IsBool | include/miniser/deser.hpp:89 | `yyjson_is_bool`: the node is present and boolean |
| JsonTree.IsUint | include/miniser/deser.hpp:209 | `yyjson_is_uint`: the node is present and an unsigned integer |
| JsonTree.IsInt | include/miniser/deser.hpp:212 | `yyjson_is_int`: the node is present and an integer of either subtype |
| JsonTree.IsReal | include/miniser/deser.hpp:200 | `yyjson_is_real`: the node is present and a real |
| JsonTree.IsStr | include/miniser/deser.hpp:221 | `yyjson_is_str`: the node is present and a string |
| JsonTree.IsArr | include/miniser/deser.hpp:130 | `yyjson_is_arr`: the node is present and an array |
| JsonTree.IsObj | include/miniser/deser.hpp:99 | `yyjson_is_obj`: the node is present and an object |
| JsonTree.KindsExclusive | include/miniser/deser.hpp:87-255 | the kinds the decoders test are pairwise exclusive, except that an unsigned node is also an integer, and the NULL pointer is of no kind |
| JsonTree.GetSint | include/miniser/deser.hpp:268 | the payload read as two's complement: congruent to the value modulo 2^64, and equal to it below 2^63 |
| JsonTree.IntegerLiteral | tests/deser.cpp:9-49 | a non-negative literal that fits 64 bits is an unsigned node, a negative one that fits is a signed node, each holding the literal; any other literal is a real |
| JsonTree.FindKey | include/miniser/deser.hpp:110 | the index of the first member with the key, or the length when there is none |
| JsonTree.ObjGet | include/miniser/deser.hpp:110 | the lookup is NULL exactly when no member has the key; otherwise it returns a member with that key |
| JsonTree.ObjGetMember | include/miniser/deser.hpp:110 | with distinct keys, a lookup finds exactly the value paired with the key |
| JsonTree.ObjGetPermutation | include/miniser/deser.hpp:110 | with distinct keys, reordering the members changes no lookup |
| Types.MaxOf | include/miniser/deser.hpp:271 | `numeric_limits<T>::max()` is positive, is one below 2^(W-1) (signed) or 2^W (unsigned), and fits the 64-bit payload |
| Types.MinOf | include/miniser/deser.hpp:274 | `numeric_limits<T>::min()` is -(max + 1) for signed types and 0 for unsigned ones |
| Decoder.WithOptions | include/miniser/deser.hpp:13-28 | `has_option` reads back each of `check_range` and `strict_real` as it was set, independently |
| Decoder.WrapUnsigned | include/miniser/deser.hpp:291 | `static_cast` to an unsigned type lands in range, keeps the value modulo 2^W, and changes no in-range value |
| Decoder.WrapSigned | include/miniser/deser.hpp:278 | `static_cast` to a signed type lands in range, keeps the value modulo 2^W, and changes no in-range value |
| Decoder.GetInteger | include/miniser/deser.hpp:259-293 | a signed target takes any integer node and an unsigned target only an unsigned one; with `check_range`, success means the value is in range and is returned unchanged; otherwise it is narrowed modulo 2^W |
| Decoder.DeserBool | include/miniser/deser.hpp:87-93 | decodes exactly the boolean nodes, to their own value |
| Decoder.DeserStr | include/miniser/deser.hpp:218-245 | decodes exactly the string nodes, to their own text |
| Decoder.DeserReal | include/miniser/deser.hpp:198-216 | a real node always decodes; otherwise `strict_real` refuses everything; otherwise exactly the integer nodes decode |
| Decoder.RealFromIntegerKeepsValue | include/miniser/deser.hpp:208-214 | a lenient real decode of an integer node converts the number's own value, because the unsigned reading is tried first |
| Decoder.Deser | include/miniser/deser.hpp:87-255 | every decoded value has the target type |
| Decoder.OptionalNeverFails | include/miniser/deser.hpp:247-255 | an optional target never fails; it holds a value exactly when the node is not null and the inner type decodes it, and then holds that decoding |
| Decoder.MissingDecodesOnlyAsOptional | include/miniser/deser.hpp:247-255 | a missing key decodes into a target exactly when the target is optional |
| Decoder.VectorDecode | include/miniser/deser.hpp:126-148 | an array decodes exactly when every element does; the vector then has the array's length and element-wise decodings; `[]` is the empty vector |
| Decoder.RecordDecode | include/miniser/deser.hpp:95-124 | an object decodes exactly when every field decodes from the member under its declared name; the record then holds those decodings in field order |
| Decoder.RecordDecodesTo | include/miniser/deser.hpp:95-124 | when each field decodes to a given value, the record is exactly those values |
| Decoder.ContainersNeedTheirKind | include/miniser/deser.hpp:99-132 | a vector refuses every node but an array, and a record every node but an object |
| Decoder.InRangeLiteralDecodes | include/miniser/deser.hpp:259-293 | every literal in the target's range decodes to itself, whatever the options |
| Decoder.Uint64TakesEveryUnsigned | include/miniser/deser.hpp:279-292 | `uint64_t` accepts every unsigned node unchanged, with or without `check_range` |
| Decoder.CheckRangeSeesWrappedPayload | include/miniser/deser.hpp:263-278 | with `check_range`, unsigned 2^63 decodes into `int64_t` as -2^63, and 2^64 - 1 into `int8_t` as -1 |
| Decoder.Decode | include/miniser/deser.hpp:87-255 | the dispatch computes `Deser` |
| Decoder.DecodeVector | include/miniser/deser.hpp:126-148 | the iterator loop that stops at the first failing element computes `Deser` on vectors |
| Decoder.DecodeRecord | include/miniser/deser.hpp:95-124 | the `ok`-flag loop over the fields computes `Deser` on records |
| Encoder.Allocate | include/miniser/ser.hpp:14 | one `yyjson_mut_*` allocation uses exactly the first outcome of the allocator, and always succeeds on a builder that never runs out |
| Encoder.Leaf | include/miniser/ser.hpp:13-60 | a leaf's `yyjson_mut_bool`, `_uint`, `_sint`, `_real` or `_strn` gives the node exactly when its allocation succeeds, and uses one outcome |
| Encoder.Ser | include/miniser/ser.hpp:13-124 | what is left of the allocator is never longer than what it was given, and only an optional can give a null node |
| Encoder.SerItems | include/miniser/ser.hpp:104-112 | the vector loop, when it succeeds, gives an array starting with the elements already appended |
| Encoder.SerFields | include/miniser/ser.hpp:82-93 | the record loop always gives an object that starts with the members already added and has at most one more member per remaining field |
| Encoder.Encode | include/miniser/ser.hpp:13-124 | when nothing fails, only an empty optional gives a null node |
| Encoder.Serialize | include/miniser/ser.hpp:13-124 | the dispatch computes `Ser`, tree and remaining allocator alike |
| Encoder.SerializeVector | include/miniser/ser.hpp:97-115 | the loop that gives up on the first failing element computes `Ser` on vectors |
| Encoder.SerializeRecord | include/miniser/ser.hpp:74-95 | the loop that skips fields whose key or value fails computes `Ser` on records |
| Encoder.DeclaredKeys | include/miniser/ser.hpp:83 | the keys of a record type are `name_of_field` of its fields under its policy, in declaration order |
| Encoder.EncodeRecord | include/miniser/ser.hpp:74-95 | a record encodes to an object whose keys are its declared keys in order, each paired with its field's tree |
| Encoder.SerNeverFails | include/miniser/ser.hpp:13-124 | with an allocator that never fails, encoding succeeds with `Encode`'s tree |
| Encoder.SerItemsNeverFail | include/miniser/ser.hpp:104-112 | with an allocator that never fails, the vector loop appends every element's tree |
| Encoder.SerFieldsNeverFail | include/miniser/ser.hpp:82-93 | with an allocator that never fails, the record loop adds every field with its key |
| Encoder.SerVectorAllOrNothing | include/miniser/ser.hpp:97-115 | a vector that encodes at all is an array of all its elements |
| Encoder.SerItemsLength | include/miniser/ser.hpp:104-112 | the vector loop, when it succeeds, has appended exactly one node per remaining element |
| Encoder.SerRecordKeepsGoing | include/miniser/ser.hpp:74-95 | a record encodes exactly when its object can be allocated; its keys are then a subsequence of the declared keys |
| Encoder.SerFieldsStep | include/miniser/ser.hpp:82-93 | field i adds (its key, its tree) right after the members already added when both its key and its value are built, and adds nothing otherwise |
| Encoder.RecordDropsFailedField | include/miniser/ser.hpp:84-91 | a one-field record encodes to `{}` when the key allocation fails, or when the value allocation fails after the key was built, and to `{"a":true}` when nothing fails |
| Encoder.SerFieldsKeys | include/miniser/ser.hpp:82-93 | the record loop keeps the members already added and appends only declared keys, in order, some possibly skipped |
| Encoder.SerUsesFront | include/miniser/ser.hpp:13-124 | encoding takes allocator outcomes from the front only: what is left is always a tail of the outcomes it was given |
| Encoder.SerItemsUseFront | include/miniser/ser.hpp:104-112 | the vector loop takes allocator outcomes from the front only |
| Encoder.SerFieldsUseFront | include/miniser/ser.hpp:82-93 | the record loop takes allocator outcomes from the front only, whether a field is kept or dropped |
| RoundTrip.RoundTrip | include/miniser/deser.hpp:95-255 | decoding the tree of a value whose records keep their declared names, with no optional directly inside an optional, gives the value back under any options |
| RoundTrip.SerThenDeser | include/miniser/ser.hpp:13-124 | with an allocator that never fails, encoding succeeds and decoding its tree gives the value back |
| RoundTrip.NestedOptionalCollapses | include/miniser/deser.hpp:247-255 | an engaged optional holding an empty optional encodes to null and decodes to an empty optional, so it does not round-trip |
| RoundTrip.TwoIntRecordEncoding | include/miniser/ser.hpp:74-95 | a record of two `int`s is written with `name_of_field` of each field, in order |
| RoundTrip.RenameRecordEncoding | tests/rename.cpp:41-63 | the records of the rename tests are written with the keys of their policy |
| RoundTrip.CamelRecordEncoding | tests/rename.cpp:53 | the camel record is written `{"myInt":x,"mySecondInt":y}` |
| RoundTrip.SnakeRecordEncoding | tests/rename.cpp:61 | the snake record is written `{"my_int":x,"my_second_int":y}` |
| RoundTrip.DeclaredNamesDecode | tests/rename.cpp:46 | under any policy, the text `{"my_int":x,"mySecondInt":y}`, its numbers read as integer literals, decodes to `{x, y}`, because the decoder uses declared names |
| RoundTrip.RenamedFieldIsLost | include/miniser/deser.hpp:109-110 | when no key the policy writes equals a non-optional field's declared name, the record does not decode from its own tree |
| RoundTrip.CamelLosesUnderscoredField | include/miniser/deser.hpp:109-110 | a camel record with a non-optional field whose name has `_` does not decode from its own tree |
| RoundTrip.SnakeLosesCapitalisedField | include/miniser/deser.hpp:109-110 | a snake record with a non-optional field whose name has a capital does not decode from its own tree |
| RoundTrip.CamelRecordDoesNotRoundTrip | tests/rename.cpp:53-54 | the camel record of the rename test does not decode from its own encoding |
| RoundTrip.SnakeRecordDoesNotRoundTrip | tests/rename.cpp:61-62 | the snake record of the rename test does not decode from its own encoding |
| RoundTrip.RecordIgnoresMemberOrder | include/miniser/deser.hpp:109-110 | a record decodes alike from any two orderings of the same distinct-key members |
| Scenarios.SignedLimits | tests/deser.cpp:9-20 | for each signed width, 0, 1, -1, max and min decode to themselves under any options |
| Scenarios.SignedOverflow | tests/deser.cpp:21-48 | with `check_range`, min - 1 fails, and so does max + 1 below 64 bits; 2^64 into `int64_t` fails under any options |
| Scenarios.UnsignedLimits | tests/deser.cpp:25-34 | for each unsigned width, 0, 1 and max decode to themselves, -1 always fails, and max + 1 fails with `check_range` |
| Scenarios.NarrowingWithoutCheck | include/miniser/deser.hpp:278-291 | without `check_range`, 256 into `uint8_t` is 0 and 128 into `int8_t` is -128 |
| Scenarios.LeafScenarios | tests/deser.cpp:51-81 | the test's leaf instances: `true` and `false` decode as bools, a real and a string as themselves, `42` as a double only without `strict_real`, and `1` and `false` are refused where they are not the target's kind (the general rules are `DeserBool`, `DeserStr` and `DeserReal`) |
| Scenarios.ThreeFields | include/miniser/deser.hpp:95-124 | a three-field record is the three values its fields decode to |
| Scenarios.FourFields | include/miniser/deser.hpp:95-124 | a four-field record is the four values its fields decode to |
| Scenarios.PlainDecodes | tests/deser.cpp:98 | `{"i":n,"f":b,"name":s}` decodes to `Plain{n, s, b}`, the members being in another order than the fields |
| Scenarios.FieldFails | include/miniser/deser.hpp:109-117 | a record fails as soon as one field fails to decode from its member |
| Scenarios.BadPlainLookups | include/miniser/deser.hpp:110 | the object with `i` set to `false` answers `i` with `false`, and without its first member has no `i` |
| Scenarios.PlainLookups | include/miniser/deser.hpp:110 | the object `{"i":n,"f":b,"name":s}` answers each of `Plain`'s declared names with its member, and has no `p` |
| Scenarios.PlainFails | tests/deser.cpp:96-100 | a number, `{}`, a boolean `i` and a missing `i` all fail to decode as `Plain` |
| Scenarios.WithPLookups | include/miniser/deser.hpp:110 | the object `{"i":n,"f":b,"name":s,"p":{...}}` answers each declared name with its member |
| Scenarios.NestedGoodP | tests/deser.cpp:117-119 | any `p` that decodes as `Plain` becomes the nested record, and the other fields still decode |
| Scenarios.NestedDecodes | tests/deser.cpp:117-119 | `{"i":n,"f":b,"name":s,"p":{"i":m,"f":c,"name":t}}` decodes to `Nested{n, s, b, Plain{m, t, c}}` |
| Scenarios.NestedFails | tests/deser.cpp:115-122 | a number, `{}`, a missing `p`, a boolean `i` and a missing `i` all fail to decode as `Nested` |
| Scenarios.NestedInnerFailureFails | tests/deser.cpp:123-125 | a `p` whose own `i` is boolean fails the whole `Nested` record |
| Scenarios.MaybeNestedGoodP | tests/deser.cpp:142-144 | any `p` that decodes as `Plain` is kept, engaged, in the optional, and the other fields still decode |
| Scenarios.MaybeNestedWithP | tests/deser.cpp:142-144 | a `p` that decodes as `Plain` is kept in the optional |
| Scenarios.MaybeNestedFails | tests/deser.cpp:140-150 | a number, `{}`, a boolean `i`, and a missing `i` next to a good `p` all fail to decode as `MaybeNested` |
| Scenarios.MaybeNestedWithoutP | tests/deser.cpp:145-146 | without a `p` member, `MaybeNested` decodes with an empty `p` |
| Scenarios.MaybeNestedFailedP | tests/deser.cpp:151-153 | any `p` that does not decode as `Plain` leaves `p` empty, and the other fields still decode |
| Scenarios.MaybeNestedAbsorbsInnerFailure | tests/deser.cpp:151-153 | a `p` whose own `i` is mistyped, with its own `f` and `name`, leaves `p` empty, and the record still decodes |
| Scenarios.PlainVector | tests/deser.cpp:172-175 | `[]` is the empty vector of `Plain`, and one failing element fails the whole vector |
| Scenarios.OneItem | include/miniser/deser.hpp:126-148 | a one-element array decodes to the one-element vector of its element's decoding |
| Scenarios.TwoItems | include/miniser/deser.hpp:126-148 | a two-element array decodes to the vector of its elements' decodings, in order |
| Scenarios.PlainVectorDecodes | tests/deser.cpp:164-171 | arrays of one and of two good `Plain` objects decode to the vectors of those records |
| Scenarios.PlainVectorNeedsArray | tests/deser.cpp:157-163 | a number and any object fail to decode as a vector of `Plain` |
| Scenarios.IntegerEncoding | tests/ser.cpp:11-43 | an in-range integer is written as itself, as a signed node exactly for signed types, and the literal that text reads back as decodes to it again |
| Scenarios.LeafEncodings | tests/ser.cpp:45-65 | a boolean, a double and a string or string view each become the node of their own kind holding the value |
| Scenarios.EncodeThree | include/miniser/ser.hpp:74-95 | a three-field record with declared names is written as those names paired with its fields' trees, in order |
| Scenarios.EncodeFour | include/miniser/ser.hpp:74-95 | a four-field record with declared names is written as those names paired with its fields' trees, in order |
| Scenarios.PlainEncoding | tests/ser.cpp:75-77 | `Plain{n, s, b}` is written `{"i":n,"name":s,"f":b}` |
| Scenarios.NestedEncoding | tests/ser.cpp:88-92 | `Nested{n, s, b, Plain{m, t, c}}` is written with `p` as the nested `Plain` object |
| Scenarios.MaybeNestedEncodesPlain | tests/ser.cpp:103-106 | an engaged `p` is written as the `Plain` object itself |
| Scenarios.MaybeNestedEncodesNull | tests/ser.cpp:107-108 | `MaybeNested` with an empty `p` is written with its fields in order and `"p":null` |
| Scenarios.PlainVectorEncoding | tests/ser.cpp:111-120 | vectors of no, one and two `Plain` records are written as arrays of their objects in order |
| Scenarios.NestedRecordEncoding | include/miniser/ser.hpp:74-95 | a record inside a record is written with each record's own policy |
| Scenarios.NestedPoliciesEncoding | examples/rename.cpp:19-27 | `Bar{1, Foo{2}}` is written `{"myInt":1,"foo":{"your_int":2}}` |
| Scenarios.NestedPoliciesDoNotDecode | examples/rename.cpp:30-33 | that text, its numbers read as integer literals, does not decode as `Bar`, because the decoder looks for `my_int` |

## Left out

- include/miniser/miniser.hpp is not part of this model. It holds the
  text-level entry points, the document RAII wrappers, `serialized` and the
  borrowed-view session.
- yyjson's text reader and writer are not modelled. This covers the grammar,
  escaping and number formatting. The reader's integer classification is
  stated as `IntegerLiteral`.
- Floating point is symbolic. A parsed real is an opaque `Bits` value, and
  `static_cast<double>(n)` is `OfInteger(n)`, without rounding. NaN and
  infinity are not modelled.
- The `!s` check on the string pointer (deser.hpp:226, 241) is left out. A
  string node always has its bytes in the model.
- `string_view` lifetime (a view into the document) is left out. A view
  decodes like a string.
- boost::pfr field enumeration and `get_name` are not modelled. A record type
  lists its (declared name, type) fields directly.
- The compile-time machinery is not modelled: `consteval`, concepts, and the
  specialisation of `rename_fields`. The policy is a field of the record
  type, and `name_of_field` is a function of the policy and the declared
  name.
- The default-initialised `T foo` that the record decoder fills in place is
  left out. The decoded fields are collected in a sequence, which gives the
  same result because a failing decode returns nothing.
- The document allocator is modelled as an oracle of allocation outcomes.
  How yyjson's pool runs out is not modelled. `yyjson_mut_arr_append` and
  `yyjson_mut_obj_add` with non-NULL arguments cannot fail, and the model
  does not let them.
- Deep or self-referential type nesting is not modelled. Types are finite
  trees, so recursion terminates.
- Names.CamelCountLen, Names.SnakeCountLen, Names.CamelConvert,
  Names.SnakeConvert: names are sequences of characters, so lengths count
  characters where the source counts the bytes of the UTF-8 name. The keys
  agree, because only ASCII letters and `_` are rewritten, but the counts
  differ for non-ASCII identifiers.
- Decoder.Deser: its own contract states only that decoded values are
  well-typed. What it decodes is stated by the lemmas beside it
  (`OptionalNeverFails`, `VectorDecode`, `RecordDecode`, `GetInteger`,
  `DeserReal` and the other leaf decoders).
- Encoder.Encode: its own contract states only that null comes from
  optionals. What it builds is stated by `EncodeRecord`, `SerNeverFails` and
  `RoundTrip`.
