# as-cbor codec core in Dafny

This project models the CBOR (RFC 7049) codec of the AssemblyScript library
as-cbor, in two parts.

- **`Decoder`** is a cursor over a read-only buffer. `parseValue` reads one
  data item. It dispatches on the initial byte: unsigned and negative
  integers, byte and text strings, arrays, maps, booleans, null and
  undefined, and floats. It refuses reserved codes, tags, indefinite
  lengths and the break byte. It hands what it read to a `Visitor`. The base
  `Visitor` rejects every event. `ValueVisitor` builds a `Value`, the loosely
  typed tree with its `as*` views and its `==`.
- **`Encoder`** appends the canonical (shortest) CBOR head of each integer
  to a growing buffer. It also appends the one-byte simple values and raw
  payload bytes.

## Files

| file | contents |
|---|---|
| `base.dfy` | bytes, the AssemblyScript integer ranges, results and errors, big-endian layout |
| `values.dfy` | `Value`, its views, its equality, and the two visitors |
| `decode.dfy` | the grammar the decoder implements, as a pure function `Decode(visitor, bytes, pos)` |
| `decoder.dfy` | the `Decoder` class. Each method is proved to agree with `Decode`. |
| `decode_props.dfy` | what one decode step yields for each kind of initial byte, plus RFC 7049 Appendix A examples |
| `encoder.dfy` | the canonical head `Head(major, v)` and the `Encoder` class, proved to append exactly those bytes |
| `roundtrip.dfy` | decoding what the encoder writes gives back the written value. Every tree the encoder can write (floats aside) reads back as a tree == to it, and as itself when it is already in the decoder's form. This holds anywhere in a buffer and through the two classes. |
| `truncation.dfy` | every proper prefix of an encoded tree fails with end of input |
| `findings.dfy` | two decoder branches modelled as written, next to the corrected ones the rest of the model uses |

### How the source maps onto the model

- **Errors.** An exception thrown by the source is an `Err` result. Each
  message is one `Error` constructor. "unexpected U8" … "unexpected Map"
  become `Unexpected(VisitU8)` … `Unexpected(VisitMap)`.
- **Visitor.** The visitor is a value: `Rejecting` is the base `Visitor`
  and `Building` is `ValueVisitor`. The events they receive are values of
  `Event`.
- **Decoder state.** The `DataView` becomes the immutable sequence `view`.
  The cursor `_pos` is the field `pos`.
- **Decoder dispatch.** The 256-way `if` chain of `parseValue` is kept
  branch by branch. It is split into one method per major type.
- **Encoder buffer.** The encoder's `ArrayBuffer` is a `seq<byte>` field.
  `concat` builds the new buffer in a fresh array, as the source does.

## Model

| member | source | states |
|---|---|---|
| Base.BigEndian | assembly/decoder.ts:273-289 | a number read from k big-endian bytes is below 256^k |
| Base.ToBigEndian | assembly/encoder.ts:40-43 | writing v as k big-endian bytes gives exactly k bytes that read back as v |
| Base.BigEndianInjective | assembly/decoder.ts:285-289 | any k bytes are the big-endian encoding of the number read from them, so reading is one-to-one |
| Values.IsNull | assembly/decoder.ts:61-62 | isNull is true exactly for the value that has none of the as* views: null (every other class inherits false, decoder.ts:18) |
| Values.IsNumber | assembly/decoder.ts:79-81 | isNumber is true exactly for the values with a u64, i64 or f64 view: the U64, I64 and F64 classes (decoder.ts:81, 99, 118) |
| Values.AsBoolean | assembly/decoder.ts:69-77 | the boolean view exists exactly for a Bool, and wraps its truth value |
| Values.AsU64 | assembly/decoder.ts:79-114 | the u64 view exists exactly for an integer value that is not negative, and gives the same number |
| Values.AsI64 | assembly/decoder.ts:79-114 | the i64 view exists exactly for an integer value at most i64 max, and gives the same number |
| Values.AsF64 | assembly/decoder.ts:116-127 | the float view exists only for a Float (integers have none) and gives its bits |
| Values.AsBytes | assembly/decoder.ts:149-156 | the byte view exists exactly for a byte string and gives its bytes |
| Values.AsString | assembly/decoder.ts:158-165 | the string view exists exactly for a text string and gives its bytes |
| Values.AsArray | assembly/decoder.ts:129-137 | the array view exists exactly for an array and gives its items |
| Values.AsMap | assembly/decoder.ts:139-147 | the map view exists exactly for a map and gives its pairs |
| Values.IntegerEquality | assembly/decoder.ts:79-114 | two integer values are == exactly when they stand for the same number, in either representation |
| Values.CrossIntegerEquality | assembly/decoder.ts:91-113 | U64(n) == I64(m) in either order exactly when m is not negative and equals n |
| Values.NullAndBoolEquality | assembly/decoder.ts:61-77 | null equals only null, and a boolean only the same boolean, on either side |
| Values.ValueEqReflexive | assembly/decoder.ts:53-58 | every value is == to itself, arrays and maps included |
| Values.ValueEqSymmetric | assembly/decoder.ts:53-58 | == gives the same answer with its operands swapped |
| Values.Visit | assembly/decoder.ts:168-185 | the base visitor fails on every event, naming the visit method, and the value visitor never fails |
| Values.VisitViews | assembly/decoder.ts:192-255 | the value visitor widens each integer to U64 or I64 keeping its number, and wraps every other payload unchanged |
| Grammar.ReadUint | assembly/decoder.ts:267-289 | a k-byte read succeeds exactly when k bytes remain, moves on by k, and fails at end of input otherwise |
| Grammar.ReadArgument | assembly/decoder.ts:411-424 | the argument is the low five bits below 24, else a 1/2/4/8-byte read; it fits the width of the visit event |
| Grammar.NegativeOf | assembly/decoder.ts:427-437 | a magnitude n gives the negative number -1 - n, and fails exactly when that is below i64 min |
| Grammar.Payload | assembly/decoder.ts:348-364 | the payload is exactly the len bytes after the head, and end of input when fewer remain |
| Grammar.DecodeString | assembly/decoder.ts:348-364 | a string ends right after its len payload bytes; a length above i32 max fails |
| Grammar.Decode | assembly/decoder.ts:409-552 | a successful read consumes at least the initial byte and stays inside the buffer; only the value visitor succeeds, and the value's kind is the major type of the initial byte |
| Grammar.DecodeInitial | assembly/decoder.ts:409-552 | the 256-way dispatch: a read succeeds only for major types other than 6 and additional information below 28, and yields a value of the initial byte's major type |
| Grammar.DecodeWithArgument | assembly/decoder.ts:411-519 | once the argument of a major type 0 to 5 head is read, the item read is of that major type, and an integer consumes nothing more |
| Grammar.DecodeSimple | assembly/decoder.ts:520-551 | major type 7 succeeds exactly for false, true, null, undefined, the half-float stub, and a single or double float whose 4 or 8 bytes are there; it consumes those bytes and nothing for the others |
| Grammar.DecodeArray | assembly/decoder.ts:366-376 | an array length above i32 max fails with "length out of range" |
| Grammar.DecodeMap | assembly/decoder.ts:378-391 | a map length above i32 max fails with "length out of range" |
| Grammar.DecodeItems | assembly/decoder.ts:370-373 | reading n items yields exactly n values and stays inside the buffer |
| Grammar.DecodeEntries | assembly/decoder.ts:383-388 | reading n pairs yields exactly n pairs; keys are not checked for uniqueness |
| Grammar.EntriesAsItems | assembly/decoder.ts:383-388 | reading n key/value pairs reads the same items as reading 2n items, paired in order |
| Decoders.Decoder.constructor | assembly/decoder.ts:262-265 | a new decoder views the whole buffer with its cursor at 0 |
| Decoders.Decoder.ParseU8 | assembly/decoder.ts:267-271 | reads one byte and advances by one, or fails at end of input without moving |
| Decoders.Decoder.ParseU16 | assembly/decoder.ts:273-277 | reads two big-endian bytes and advances by two, or fails at end of input |
| Decoders.Decoder.ParseU32 | assembly/decoder.ts:279-283 | reads four big-endian bytes and advances by four, or fails at end of input |
| Decoders.Decoder.ParseU64 | assembly/decoder.ts:285-289 | reads eight big-endian bytes and advances by eight, or fails at end of input |
| Decoders.Decoder.ParseBytes | assembly/decoder.ts:348-355 | yields the payload bytes and leaves the cursor right after them, agreeing with the grammar |
| Decoders.Decoder.ParseString | assembly/decoder.ts:357-364 | yields the payload as a text string and leaves the cursor right after it |
| Decoders.Decoder.ParseArray | assembly/decoder.ts:366-376 | fills a new array with the next len items in order and ends where the last one ends |
| Decoders.Decoder.ParseMap | assembly/decoder.ts:378-391 | collects the next len key/value pairs in order, duplicates kept, and ends where the last value ends |
| Decoders.Decoder.ParseIndefinite | assembly/decoder.ts:393-407 | an indefinite-length string, array or map fails with "streaming is not supported" |
| Decoders.Decoder.ParseValue | assembly/decoder.ts:409-552 | returns the value the grammar gives at the cursor and moves the cursor to its end, or throws the grammar's error |
| Decoders.Decoder.ParseUnsigned | assembly/decoder.ts:411-426 | initial bytes 0x00-0x1F agree with the grammar |
| Decoders.Decoder.ParseNegative | assembly/decoder.ts:427-443 | initial bytes 0x20-0x3F agree with the grammar |
| Decoders.Decoder.ParseNegativeArgument | assembly/decoder.ts:429-441 | initial bytes 0x38-0x3B give -1 - n for the argument n they read |
| Decoders.Decoder.ParseByteString | assembly/decoder.ts:444-462 | initial bytes 0x40-0x5F agree with the grammar |
| Decoders.Decoder.ParseTextString | assembly/decoder.ts:463-481 | initial bytes 0x60-0x7F agree with the grammar |
| Decoders.Decoder.ParseArrayHead | assembly/decoder.ts:482-500 | initial bytes 0x80-0x9F agree with the grammar |
| Decoders.Decoder.ParseMapHead | assembly/decoder.ts:501-519 | initial bytes 0xA0-0xBF agree with the grammar |
| Decoders.Decoder.ParseSimple | assembly/decoder.ts:520-551 | initial bytes 0xE0-0xFF agree with the grammar; the final "unreachable" throw cannot be reached |
| DecodeProperties.Argument | assembly/decoder.ts:411-424 | the argument read off the bytes never exceeds u64 max |
| DecodeProperties.WithArgument | assembly/decoder.ts:409-519 | for major types 0-5, a truncated argument is end of input; otherwise decoding goes on from the argument read off the bytes |
| DecodeProperties.UnsignedItem | assembly/decoder.ts:411-426 | major type 0 yields U64 of the argument and ends with it, or end of input |
| DecodeProperties.NegativeItem | assembly/decoder.ts:427-443 | major type 1 yields I64(-1 - n), fails when n exceeds i64 max, or is end of input |
| DecodeProperties.StringPayload | assembly/decoder.ts:348-364 | a string payload is exactly the len bytes from its start, unless the length is out of range or the buffer ends first |
| DecodeProperties.ByteStringItem | assembly/decoder.ts:444-462 | major type 2 yields exactly the len bytes after the head and ends after them; a length out of range or a short payload fails |
| DecodeProperties.TextStringItem | assembly/decoder.ts:463-481 | major type 3 yields exactly the len UTF-8 bytes after the head and ends after them; a length out of range or a short payload fails |
| DecodeProperties.ArrayItem | assembly/decoder.ts:482-500 | major type 4 yields the array of the next len items, or the first error among them |
| DecodeProperties.MapItem | assembly/decoder.ts:501-519 | major type 5 yields the map of the next len pairs, or the first error among them |
| DecodeProperties.ItemsInOrder | assembly/decoder.ts:370-373 | the first item is read at the start, the rest from where it ends |
| DecodeProperties.EntriesInOrder | assembly/decoder.ts:383-388 | each key is read first and its value right after it, then the remaining pairs |
| DecodeProperties.SimpleItem | assembly/decoder.ts:526-533 | 0xF4/0xF5 are false/true; 0xF6 and 0xF7 are both null; each is one byte long |
| DecodeProperties.FloatItem | assembly/decoder.ts:539-544 | 0xFA and 0xFB consume 4 and 8 bytes of float bits, or end of input |
| DecodeProperties.HalfFloatItem | assembly/decoder.ts:536-538 | 0xF9 gives a zero half float, since parseF16 is a stub, and leaves the two half-float bytes unread |
| DecodeProperties.RejectedItem | assembly/decoder.ts:520-550 | reserved codes, tags, indefinite lengths and the break byte fail with their own error, whatever follows |
| DecodeProperties.EmptyInput | assembly/decoder.ts:267-271 | reading at the end of the buffer fails at end of input |
| DecodeProperties.RejectingFails | assembly/decoder.ts:168-185 | decoding with the base visitor always fails |
| DecodeProperties.UnsignedExample | assembly/__tests__/decoder.spec.ts:30 | "19 03 e8" decodes to 1000 |
| DecodeProperties.LargestUnsignedExample | assembly/__tests__/decoder.spec.ts:33 | "1b ff ff ff ff ff ff ff ff" decodes to 2^64 - 1 |
| DecodeProperties.NegativeExamples | assembly/__tests__/decoder.spec.ts:39-42 | "20" decodes to -1 and "39 03 e7" to -1000 |
| DecodeProperties.ByteStringExamples | assembly/__tests__/decoder.spec.ts:185-190 | "44 01 02 03 04" decodes to h'01020304' and "40" to h'' |
| DecodeProperties.NegativeHasNoUnsignedView | assembly/__tests__/decoder.spec.ts:39-42 | negative numbers have no u64 view |
| DecodeProperties.DuplicateKeysKept | assembly/decoder.ts:383-388 | the model keeps both pairs of a map with key 1 twice, in order |
| Encoding.InitialByte | assembly/encoder.ts:20-26 | m << 5 \| info carries m in its top three bits and info in its low five |
| Encoding.Head | assembly/encoder.ts:20-83 | a head starts with an initial byte of the given major type |
| Encoding.IntHead | assembly/encoder.ts:85-91 | a signed integer's head has major type 1 when negative, else 0 |
| Encoding.HeadLength | assembly/encoder.ts:20-83 | the head is 1, 2, 3, 5 or 9 bytes long exactly when the argument is below 24, 256, 2^16, 2^32, or beyond |
| Encoding.HeadMinimal | assembly/encoder.ts:20-83 | no argument size the format offers that holds v is shorter than the one written |
| Encoding.SetBytes | assembly/encoder.ts:10-12 | copies the bytes into the array at the offset and leaves the rest of the array unchanged |
| Encoding.SetUint | assembly/encoder.ts:40-43 | writes v big-endian at the offset and leaves the rest of the array unchanged |
| Encoding.Encoder.constructor | assembly/encoder.ts:4-6 | a new encoder's buffer is empty |
| Encoding.Encoder.Concat | assembly/encoder.ts:9-14 | the buffer becomes the old bytes followed by the new ones |
| Encoding.Encoder.WriteU8 | assembly/encoder.ts:20-26 | appends the canonical head of v with major type m |
| Encoding.Encoder.WriteU16 | assembly/encoder.ts:36-45 | appends the canonical head of v with major type m |
| Encoding.Encoder.WriteU32 | assembly/encoder.ts:55-64 | appends the canonical head of v with major type m |
| Encoding.Encoder.WriteU64 | assembly/encoder.ts:74-83 | appends the canonical head of v with major type m |
| Encoding.Encoder.WriteI8 | assembly/encoder.ts:28-34 | appends the canonical head of a signed value |
| Encoding.Encoder.WriteI16 | assembly/encoder.ts:47-53 | appends the canonical head of a signed value |
| Encoding.Encoder.WriteI32 | assembly/encoder.ts:66-72 | appends the canonical head of a signed value |
| Encoding.Encoder.WriteI64 | assembly/encoder.ts:85-91 | appends the canonical head of a signed value |
| Encoding.Encoder.WriteBool | assembly/encoder.ts:121-127 | appends 0xF5 for true and 0xF4 for false |
| Encoding.Encoder.WriteNull | assembly/encoder.ts:138-140 | appends 0xF6 |
| Encoding.Encoder.WriteString | assembly/encoder.ts:129-132 | appends the UTF-8 bytes, with no head |
| Encoding.Encoder.WriteBytes | assembly/encoder.ts:134-136 | appends the bytes, with no head |
| RoundTrip.HeadInfo | assembly/encoder.ts:20-83 | the additional information of a canonical head is v itself exactly when v is below 24 |
| RoundTrip.HeadShape | assembly/encoder.ts:20-83 | a canonical head is its initial byte plus the argument bytes the decoder expects for it, and they read back as v |
| RoundTrip.ReadHead | assembly/decoder.ts:411-424 | the decoder reads back the argument of any canonical head and stops exactly at its end |
| RoundTrip.HeadDecodes | assembly/decoder.ts:409-519 | at a canonical head, decoding goes on from its argument just past the head |
| RoundTrip.ArrayHead | assembly/decoder.ts:482-500 | an array head followed by items that decode to xs decodes to the array xs |
| RoundTrip.MapHead | assembly/decoder.ts:501-519 | a map head followed by pairs that decode to es decodes to the map es |
| RoundTrip.UnsignedRoundTrip | assembly/encoder.ts:74-83 | what writeU64(0, v) writes decodes to U64(v), consuming just the head |
| RoundTrip.NegativeRoundTrip | assembly/encoder.ts:85-91 | a negative number written with major type 1 decodes to the same number as I64 |
| RoundTrip.IntRoundTrip | assembly/encoder.ts:85-91 | what writeI64(v) writes decodes to a value == I64(v), consuming just the head |
| RoundTrip.StringRoundTrip | assembly/decoder.ts:444-481 | a length head followed by the payload decodes to that byte or text string, ending after the payload |
| RoundTrip.EncodeDecode | assembly/decoder.ts:409-552 | every value the encoder can lay out that is in the decoder's form (I64 only when negative) decodes to itself from its bytes, anywhere in a buffer |
| RoundTrip.ScalarRoundTrip | assembly/decoder.ts:409-481 | strings, integers, booleans and null decode to themselves |
| RoundTrip.AtomRoundTrip | assembly/decoder.ts:409-443 | integers, booleans and null decode to themselves |
| RoundTrip.IntegerValueRoundTrip | assembly/decoder.ts:409-443 | U64 and negative I64 values decode to themselves |
| RoundTrip.SimpleRoundTrip | assembly/encoder.ts:121-140 | null, false and true decode to themselves from their single byte |
| RoundTrip.ArrayRoundTrip | assembly/decoder.ts:366-376 | an encoded array decodes to the same items in the same order |
| RoundTrip.MapRoundTrip | assembly/decoder.ts:378-391 | an encoded map decodes to the same pairs in the same order |
| RoundTrip.EncodeDecodeItems | assembly/decoder.ts:370-373 | the items of an array decode one after the other to themselves |
| RoundTrip.EncodeDecodeEntries | assembly/decoder.ts:383-388 | the pairs of a map decode one after the other to themselves |
| RoundTrip.PairsOfFlat | assembly/decoder.ts:383-388 | pairing the flat key, value, key, value… list gives back the pairs |
| RoundTrip.EntriesAsFlatItems | assembly/decoder.ts:383-388 | a map's pairs are laid out exactly as the array of its keys and values |
| RoundTrip.DecodeOfEncode | assembly/decoder.ts:409-552 | decode(encode(v)) == v, consuming the whole encoding, for values in the decoder's form |
| RoundTrip.EncodedMajorType | assembly/encoder.ts:20-140 | the first byte the encoder's writes lay out for a value carries the major type the value is read back with (writeI64 of a non-negative number uses major type 0) |
| RoundTrip.NormalForm | assembly/encoder.ts:85-91 | a written tree and its normal form (each non-negative I64 turned into U64) are laid out in the same bytes, and the two are == |
| RoundTrip.NormalFormItems | assembly/encoder.ts:85-91 | the same for the items of an array, item by item |
| RoundTrip.NormalFormEntries | assembly/encoder.ts:85-91 | the same for the pairs of a map, key by key and value by value |
| RoundTrip.NormalOfCanonical | assembly/decoder.ts:79-114 | a tree already in the decoder's form is its own normal form |
| RoundTrip.WrittenRoundTrip | assembly/decoder.ts:409-552 | any tree the encoder writes, I64 leaves of any sign included, decodes to its normal form, which is == to it, consuming all the bytes |
| Truncation.CutHead | assembly/decoder.ts:411-424 | a canonical head cut short fails with end of input |
| Truncation.CutString | assembly/decoder.ts:348-364 | a byte or text string cut short, in its head or its payload, fails with end of input |
| Truncation.CutValue | assembly/decoder.ts:409-552 | any encoded value cut short anywhere inside its bytes fails with end of input |
| Truncation.CutItems | assembly/decoder.ts:366-376 | items cut short: the items before the cut decode and the one it falls in fails, so the array fails with end of input |
| Truncation.CutPairs | assembly/decoder.ts:378-391 | pairs cut short in a key, a value or a later pair fail with end of input |
| Truncation.TruncationFails | assembly/decoder.ts:409-552 | every proper prefix of what the encoder writes for a tree, the empty prefix included, fails with end of input |
| RoundTrip.UnsignedThroughCodec | assembly/encoder.ts:74-83 | writeU64(0, v) on a new encoder, then parseValue on its buffer, gives U64(v) |
| RoundTrip.SignedThroughCodec | assembly/encoder.ts:85-91 | writeI64(v), then parseValue, gives a value == I64(v) |
| RoundTrip.TextThroughCodec | assembly/encoder.ts:129-132 | a length head plus writeString(s), then parseValue, gives the string and consumes the whole buffer |
| AsWritten.Slice | assembly/decoder.ts:352 | ArrayBuffer.slice clamps both ends and is empty unless the end lies past the start |
| AsWritten.PayloadAsWritten | assembly/decoder.ts:348-364 | the as-written payload has at most len + 1 bytes and the cursor always moves on by len |
| AsWritten.PayloadRightOnlyAtOne | assembly/decoder.ts:352 | read as written, a non-empty payload is right exactly when it starts at offset 1 |
| AsWritten.PayloadInsideArray | assembly/decoder.ts:352 | in [h'07', h'08'] the first payload is read as empty |
| AsWritten.TruncatedPayload | assembly/decoder.ts:361 | a cut-short payload is read without error, leaving the cursor past the end |
| AsWritten.NegativeU64AsWritten | assembly/decoder.ts:438-441 | as written, 0x3B yields the magnitude itself, never a negative number, and only below i32 max |
| AsWritten.NegativeU64NeverRight | assembly/decoder.ts:438-441 | for every magnitude up to i64 max, the as-written result differs from -1 - n |
| AsWritten.NegativeU64Zero | assembly/decoder.ts:438-441 | 0x3B with a zero magnitude gives 0 as written, where -1 is meant |

## Left out

- Float numerics. Reading a single or double float keeps its raw bits, and
  `visitF32`/`visitF64` receive those bits as an opaque value. There is no
  IEEE-754 arithmetic and no f32 to f64 widening. `parseF16` is modelled as
  the stub it is: 0xF9 yields zero and does not consume the two bytes that
  follow (assembly/decoder.ts:291-293). The unreachable half-float
  conversion after its early return is not modelled. Float equality is
  not IEEE equality either: `ValueEq` compares width and raw bits, where
  the source's f64 `==` (assembly/decoder.ts:123-126) makes NaN unequal to
  itself, +0 equal to -0, and a single float equal to the double of the
  same number.
- `writeF32` and `writeF64`: IEEE-754 rounding and classification (finite,
  NaN) are outside the model. `Writable` therefore excludes `Float`.
- UTF-8: text is kept as its UTF-8 bytes. `String.UTF8.encode` and
  `String.UTF8.decode` are the identity on those bytes, and no validation
  is modelled.
- ValueEq: compares byte strings, arrays and maps by contents, and maps
  pair by pair in order, so two maps with the same pairs in another order
  are not equal. The source compares the `Uint8Array`, `Array` and `Map`
  references, so there only a value compared with itself is equal; a map
  equality that ignores order is not modelled.
- The map is a modelling choice: the model keeps every key/value pair in
  decode order, duplicates included. Whether the source's
  `Map<Value, Value>` merges keys that are `==` (assembly/decoder.ts:383-388
  call `set` once per pair) is not modelled.
- `Value.fromNull`, `fromBoolean`, `fromU64`, `fromI64` and `fromF64` are
  the `Value` constructors. `fromArray` and `fromMap` are stubs that return
  null and are not modelled. `isNull` and `isNumber` are the predicates
  `IsNull` and `IsNumber`. The `is*` and `to*` helpers only test or unwrap
  an `as*` view and are not modelled separately. The `Box` wrapper is
  `Option`.
- Exception messages: each distinct message is one `Error` constructor,
  not a string.
- The cursor `_pos` is an i32 in the source. The model's cursor is
  unbounded; buffers longer than i32 max are not considered.
- The `buffer` getter is the public field `Encoder.buffer`.
- Encoder.WriteBool, Encoder.WriteNull and Encoder.WriteBytes append
  exactly the one byte, or exactly the `v.length` bytes, that CBOR calls
  for. This assumes that the array literals `[0xF5]`, `[0xF4]` and `[0xF6]`
  (assembly/encoder.ts:121-140) are arrays of bytes, and that the `buffer`
  of an `Array<u8>` holds exactly its elements. AssemblyScript's typing of
  an untyped integer literal array (possibly `Array<i32>`, four bytes per
  element) and the spare capacity of an array's backing store are not
  modelled.
- Allocation: `parseArray` allocates `new Array<Value>(len)` before it reads
  any item (assembly/decoder.ts:369), so a large declared length such as
  `9a 7f ff ff ff` may fail in the source with an allocation error. The
  model reads items lazily and reports end of input. Running out of memory
  is not modelled.
- Nesting depth: `parseValue` recurses once per nesting level, so deeply
  nested input can exhaust the stack in the source. The model has no depth
  limit.
- The indefinite-length readers `parseIndefiniteBytes`, `parseIndefiniteString`,
  `parseIndefiniteArray` and `parseIndefiniteMap` throw the same error and
  are one method, `ParseIndefinite`.

## Findings

| source | as written | input that shows it | evidently intended | confidence | as-written member | corrected member |
|---|---|---|---|---|---|---|
| assembly/decoder.ts:352 | `parseBytes` and `parseString` take `buffer.slice(pos, len + 1)`, treating the length as an end index. The slice clamps and does not fail on a short buffer. | `82 41 07 41 08` ([h'07', h'08']): the first payload is read as h''. `44 01` reads h'01' with no error. | the len bytes from the cursor on, and end of input when fewer remain | high, not executed | AsWritten.PayloadAsWritten | Grammar.Payload |
| assembly/decoder.ts:438-441 | 0x3B passes the eight-byte magnitude to `visitI64` unchanged and asserts it is below i32 max | `3b 00 00 00 00 00 00 00 00` (-1) decodes to 0 | -1 - n, failing only when that is below i64 min | high, not executed | AsWritten.NegativeU64AsWritten | Grammar.NegativeOf |
