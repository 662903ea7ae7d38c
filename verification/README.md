# fuels-ts abi-coder, v1 coder layer, in Dafny

This project models the v1 ("compact") coder layer of the fuels-ts ABI coder.
It has three parts.

- **The coder factory `getCoder`.** It maps a resolved ABI type to a tree of
  coders, first match wins:
  - the scalar names come first;
  - then `str[N]`, arrays, `Vec`, structs, enums/`Option` and tuples;
  - then the rejection of string slices;
  - then "coder not found".

  It recurses into components and records the option record each child is
  built with (`CoderFactory`).
- **The length-prefixed coders.**
  - `ByteCoder`: an 8-byte big-endian count, then the raw bytes.
  - `VecCoder`: an 8-byte count, then fixed-width element encodings. They are
    decoded by cutting the payload into element-width pieces.
- **The enum (tagged-variant) coder.** It writes an 8-byte big-endian case
  index, then that case's payload, so the length depends on the active case
  (`EnumCoder`). The test vectors are restated in `EnumVectors`.

Modules:

| module | contents |
|---|---|
| `AbiTypes` | Resolved types. The `type` string is replaced by a closed datatype, `TypeName`, with one constructor per pattern the factory matches. |
| `Errors` | Error kinds and reasons, and a `Result` type. |
| `Words` | Bytes, and the 8-byte big-endian word. U64Coder is modelled as exactly this word. |
| `Codecs` | A coder as a record of `width`/`encode`/`decode`, plus the fixed-width and round-trip laws. Also models `concatBytes` and `chunkByLength`. |
| `ByteCoder` | ByteCoder. |
| `VecCoder` | VecCoder. |
| `EnumCoder` | The enum coder. |
| `EnumVectors` | The enum coder's test vectors. |
| `CoderFactory` | `getCoder`. |

All integers are unbounded. The 64-bit limit of the count word is explicit:
encoding a count of 2^64 or more fails. `ByteCoder.ToByte` writes out the
`Uint8Array` conversion for integer elements, which reduces each one modulo 256.
`ByteCoder.ENCODED_LENGTH` is the word size (ByteCoder.ts:10-12).

The factory never reads the `options` it is given: the parameter is
`_options` (getCoderV1.ts:57). Every child is built by the factory itself,
whatever option record the parent passes. So the legacy encoding flag
(`encoding: ENCODING_V0`) that Vec items and tuple slots receive (lines 120
and 144) is only recorded on those children; it does not switch them to a
different factory (`CoderFactory.OptionsIgnored`).

## Model

| member | source | states |
|---|---|---|
| CoderFactory.GetCoder | packages/abi-coder/src/encoding/strategies/getCoderV1.ts:55-160 | Every failure is one of INVALID_COMPONENT, ELEMENT_NOT_FOUND, INVALID_DATA, CODER_NOT_FOUND, at any depth. CODER_NOT_FOUND always names a node whose type is a plain name that is neither a scalar nor `str`. INVALID_DATA only ever comes from a string slice. |
| CoderFactory.GetCoderMirrors | packages/abi-coder/src/encoding/strategies/getCoderV1.ts:55-160 | Every tree the factory builds mirrors its type node by node. That means the right leaf for each scalar name, `StringCoder(N)` for `str[N]`, one child per component in order, with the component's name and the option record of its kind. |
| CoderFactory.MirrorsGetCoder | packages/abi-coder/src/encoding/strategies/getCoderV1.ts:55-160 | Conversely, any tree that mirrors a type is exactly the one the factory returns for it. |
| CoderFactory.GetCoderCharacterized | packages/abi-coder/src/encoding/strategies/getCoderV1.ts:55-160 | `getCoder(t)` returns `c` if and only if `c` mirrors `t`. This is both directions of the declarative definition. |
| CoderFactory.RuleFor | packages/abi-coder/src/encoding/strategies/getCoderV1.ts:59-159 | Which branch handles a type name. Each branch is chosen exactly under its condition, and the order decides overlaps: a scalar name that looks like a struct (`B512`, `Bytes`, `String`) and the `Vec` struct never reach the struct branch. Every name that is not a scalar, `str` or a shape the later branches match reaches "coder not found". |
| CoderFactory.Components | packages/abi-coder/src/encoding/strategies/getCoderV1.ts:124-146 | Building the components with one option record succeeds exactly when every component builds. The children are then the coders of the components, in order, each labelled with the name of its component and that option record. Otherwise the error is that of the first component that fails. |
| CoderFactory.ScalarCoder | packages/abi-coder/src/encoding/strategies/getCoderV1.ts:59-78 | The exact-name switch: `u8`/`u16`/`u32` give a NumberCoder of that very name, and only they do; `u64` and `raw untyped ptr` give the U64Coder, and only they do; no scalar name gives a struct coder. |
| AbiTypes.IndexOf | packages/abi-coder/src/encoding/strategies/getCoderV1.ts:111 | `findOrThrow` by name: the position of the first entry equal to the key, or the list length when there is none; no earlier entry matches. |
| Errors.Collect | packages/abi-coder/src/encoding/strategies/getCoderV1.ts:143-145 | Mapping a builder over the components in order: all values when every call succeeds, one per component in order; otherwise the error of the first call that fails, every earlier call having succeeded. |
| CoderFactory.OptionsIgnored | packages/abi-coder/src/encoding/strategies/getCoderV1.ts:55-58 | The result does not depend on the incoming options. |
| CoderFactory.ScalarsFirst | packages/abi-coder/src/encoding/strategies/getCoderV1.ts:59-81 | Scalar names always succeed. `u8`/`u16`/`u32` give a NumberCoder of that name exactly when the name is one of them. `u64` and `raw untyped ptr` give the same U64Coder exactly when the name is one of those two. `B512`/`Bytes`/`String` never give a struct coder. Components and type arguments make no difference. |
| CoderFactory.StringArray | packages/abi-coder/src/encoding/strategies/getCoderV1.ts:83-88 | `str[N]` gives a StringCoder of length exactly N. |
| CoderFactory.Array | packages/abi-coder/src/encoding/strategies/getCoderV1.ts:95-108 | An array without a first component fails with INVALID_COMPONENT. Otherwise the result wraps the first component's coder, built with `isSmallBytes` only, as an array coder of the array's length. Otherwise the element's error propagates. |
| CoderFactory.Vec | packages/abi-coder/src/encoding/strategies/getCoderV1.ts:110-122 | With no `buf` component the lookup fails. If the first `buf` component has no type argument, the factory fails with INVALID_COMPONENT. Otherwise it wraps the coder of that first type argument, built with `isSmallBytes` and the legacy encoding, in a Vec coder. |
| CoderFactory.StructFields | packages/abi-coder/src/encoding/strategies/getCoderV1.ts:124-128 | A struct is exactly its components built with `isRightPadded`: it succeeds when every field does, with one child per component in order, and otherwise fails with the first failing field's error. |
| CoderFactory.EnumCases | packages/abi-coder/src/encoding/strategies/getCoderV1.ts:130-139 | An enum is exactly its components built with no options: it succeeds when every case does, with one child per case in order, and otherwise fails with the first failing case's error. |
| CoderFactory.OptionOrEnum | packages/abi-coder/src/encoding/strategies/getCoderV1.ts:130-139 | An enum gives an Option coder exactly when its type is `Option`, and an enum coder otherwise. Renaming the enum leaves the case coders unchanged. |
| CoderFactory.TupleSlots | packages/abi-coder/src/encoding/strategies/getCoderV1.ts:141-147 | A tuple is exactly its components built with `isRightPadded` and the legacy encoding: one slot per component in order when every slot builds, and otherwise the first failure. |
| CoderFactory.StringSliceRejected | packages/abi-coder/src/encoding/strategies/getCoderV1.ts:149-154 | `str` always fails with INVALID_DATA. |
| CoderFactory.NotFound | packages/abi-coder/src/encoding/strategies/getCoderV1.ts:156-159 | Any other plain name fails with CODER_NOT_FOUND, naming the type. |
| Words.U64Encode | packages/abi-coder/src/encoding/coders/v1/ByteCoder.ts:20 | The count word is 8 bytes whose big-endian value is the count. Encoding fails exactly when the count is 2^64 or more. |
| Words.U64Decode | packages/abi-coder/src/encoding/coders/v1/ByteCoder.ts:32 | Decoding the word at `offset` succeeds exactly when 8 bytes follow `offset`; the value is their big-endian number, below 2^64, and the next offset is `offset + 8`. A short buffer fails with DECODE_ERROR. |
| Words.ReadCountAt | packages/abi-coder/src/encoding/coders/v1/ByteCoder.ts:31-32 | Slicing 8 bytes at `offset` and decoding from 0 succeeds exactly when 8 bytes follow `offset`. The value is the word stored there. |
| Words.Slice | packages/abi-coder/src/encoding/coders/v1/ByteCoder.ts:34 | `slice` clamps both ends to the buffer. Its length is the clamped span. |
| ByteCoder.ToByte | packages/abi-coder/src/encoding/coders/v1/ByteCoder.ts:19 | The `Uint8Array` conversion of one integer: unchanged when it is already a byte, and otherwise congruent to it modulo 256. |
| ByteCoder.ToBytes | packages/abi-coder/src/encoding/coders/v1/ByteCoder.ts:19 | `new Uint8Array(value)`: the same length, and element `i` is the conversion of element `i`. |
| ByteCoder.EncodedLengthBound | packages/abi-coder/src/encoding/coders/v1/ByteCoder.ts:10-28 | `encodedLength` (one word) is the size of the encoding of the empty blob and a lower bound on every encoding; the decoder refuses exactly the buffers shorter than it, with "invalid byte data size". |
| ByteCoder.Encode | packages/abi-coder/src/encoding/coders/v1/ByteCoder.ts:14-23 | The result is 8 + \|v\| bytes: the word \|v\|, then each element modulo 256. It fails only when \|v\| does not fit in 64 bits. |
| ByteCoder.Decode | packages/abi-coder/src/encoding/coders/v1/ByteCoder.ts:25-41 | A buffer shorter than 8 bytes fails with DECODE_ERROR (invalid byte data size). Fewer than 8 bytes after `offset` means the word cannot be read. The result is "invalid bytes byte data size" if and only if the declared length exceeds what follows the word. On success it returns exactly the declared bytes and `offset + 8 + length`. |
| ByteCoder.RoundTripWraps | packages/abi-coder/src/encoding/coders/v1/ByteCoder.ts:14-41 | Decoding an encoding anywhere in a buffer gives the elements modulo 256 and the offset past the encoding. |
| ByteCoder.RoundTrip | packages/abi-coder/src/encoding/coders/v1/ByteCoder.ts:14-41 | For byte values, `decode(encode(v), 0) == (v, 8 + \|v\|)`, including inside a larger buffer. |
| ByteCoder.DecodeEncode | packages/abi-coder/src/encoding/coders/v1/ByteCoder.ts:25-41 | A successfully decoded blob re-encodes to exactly the bytes it was read from. |
| Codecs.ConcatLength | packages/abi-coder/src/encoding/coders/v1/VecCoder.ts:33 | `concatBytes` (`Codecs.Concat`) is as long as all the parts together: its length is the sum of the part lengths, taken independently of how the parts are joined. |
| Codecs.ConcatAppend | packages/abi-coder/src/encoding/coders/v1/VecCoder.ts:33 | The parts are joined left to right: appending a part to the list appends its bytes to the result. |
| Codecs.ConcatEmpty | packages/abi-coder/src/encoding/coders/v1/VecCoder.ts:33 | The concatenation is empty exactly when every part is empty. |
| Codecs.Chunk | packages/abi-coder/src/encoding/coders/v1/VecCoder.ts:51-56 | `chunkByLength` pieces are non-empty and at most `w` long, every piece but the last is exactly `w` long, and they concatenate back to the data. |
| Codecs.ChunkCount | packages/abi-coder/src/encoding/coders/v1/VecCoder.ts:51-56 | A buffer of `n * w` bytes splits into exactly `n` pieces. Piece `i` is bytes `i*w` to `(i+1)*w`. |
| Codecs.ChunkConcat | packages/abi-coder/src/encoding/coders/v1/VecCoder.ts:51-56 | Chunking the concatenation of equal-width parts gives back the parts. |
| Codecs.ConcatUniform | packages/abi-coder/src/encoding/coders/v1/VecCoder.ts:33 | Equal-width parts concatenate to `\|parts\| * w` bytes. |
| Codecs.EncodeEach | packages/abi-coder/src/encoding/coders/v1/VecCoder.ts:30 | Succeeds exactly when every element encodes. It then holds every encoding in order. |
| Codecs.DecodeEach | packages/abi-coder/src/encoding/coders/v1/VecCoder.ts:52-55 | Succeeds exactly when every piece decodes from offset 0. Element `i` is piece `i`'s value. |
| Codecs.DecodeEachEncodings | packages/abi-coder/src/encoding/coders/v1/VecCoder.ts:25-57 | For a lossless coder, decoding each encoding gives back the values. |
| VecCoder.EncodedLength | packages/abi-coder/src/encoding/coders/v1/VecCoder.ts:20-21 | The reported `encodedLength` is at least one word, and more than one word exactly when the element width is positive. |
| VecCoder.SingletonLength | packages/abi-coder/src/encoding/coders/v1/VecCoder.ts:21 | For a fixed-width element coder, `encodedLength` is exactly the size of the encoding of a one-element vector. |
| VecCoder.Encode | packages/abi-coder/src/encoding/coders/v1/VecCoder.ts:25-34 | Succeeds exactly when every element encodes and the count fits in 64 bits. The result is the count word, then the concatenation of the element encodings. A failure is an element's own error, or the count overflow. |
| VecCoder.EncodeLength | packages/abi-coder/src/encoding/coders/v1/VecCoder.ts:25-34 | With fixed-width elements the encoding is `8 + \|xs\| * width` bytes. |
| VecCoder.DecodePayload | packages/abi-coder/src/encoding/coders/v1/VecCoder.ts:41-56 | Fails when the word cannot be read, and with "invalid vec byte data size" when fewer than `count * width` bytes follow the word. On success it returns `count` elements and next offset `offset + 8 + count * width`. |
| VecCoder.DecodePayloadElements | packages/abi-coder/src/encoding/coders/v1/VecCoder.ts:51-56 | Once the word is read and the payload fits, there is one piece per counted element. Decoding succeeds exactly when every piece decodes from offset 0, and element `i` is the value of piece `i`. |
| VecCoder.PiecesOfPayload | packages/abi-coder/src/encoding/coders/v1/VecCoder.ts:45-56 | Piece `i` of the payload is bytes `offset + 8 + i * width` to `offset + 8 + (i + 1) * width` of the buffer, for each of the `count` pieces. |
| VecCoder.DecodeAsWritten | packages/abi-coder/src/encoding/coders/v1/VecCoder.ts:36-57 | A whole buffer below `encodedLength` (element width + 8) or above the ceiling fails with DECODE_ERROR, regardless of `offset`. Otherwise the result is the payload decoding. |
| VecCoder.Decode | packages/abi-coder/src/encoding/coders/v1/VecCoder.ts:36-57 | Corrected decoder: the same, with the lower guard at one word. |
| VecCoder.DecodersAgree | packages/abi-coder/src/encoding/coders/v1/VecCoder.ts:37-39 | The two decoders agree on every buffer of at least `encodedLength` bytes. |
| VecCoder.RoundTrip | packages/abi-coder/src/encoding/coders/v1/VecCoder.ts:25-57 | For a fixed-width, positive-width, lossless element coder, `decode(encode(xs))` at the start of the encoding gives `(xs, offset + 8 + \|xs\| * width)`, for any buffer within the ceiling. |
| VecCoder.RoundTripAsWritten | packages/abi-coder/src/encoding/coders/v1/VecCoder.ts:25-57 | The library's decoder has the same round trip for every non-empty vector. |
| VecCoder.EmptyVecRejected | packages/abi-coder/src/encoding/coders/v1/VecCoder.ts:37-39 | The empty vector encodes to one zero word. The library's guard rejects that buffer; the corrected decoder returns `([], 8)`. |
| EnumCoder.Encode | packages/abi-coder/src/encoding/coders/v1/EnumCoder.test.ts:18-63 | No case key fails with DECODE_ERROR, and so do several keys or an unknown key. Encoding succeeds exactly when one key names a case whose coder accepts the value. The result is the case's index as a word followed by the case's payload, so its length is 8 plus the payload length. |
| EnumCoder.Decode | packages/abi-coder/src/encoding/coders/v1/EnumCoder.test.ts:25-82 | A buffer shorter than 8 bytes fails (invalid enum data size). An index at or above the number of cases fails, naming the index and the case names in order. Otherwise the named case's coder decodes at `offset + 8`, and that decode's success decides the result. |
| EnumCoder.RoundTrip | packages/abi-coder/src/encoding/coders/v1/EnumCoder.test.ts:18-56 | With lossless case coders, decoding an encoding anywhere in a buffer gives back the case key, the value and the offset past it. |
| EnumCoder.Discriminant | packages/abi-coder/src/encoding/coders/v1/EnumCoder.test.ts:16-23 | The index word of an encoding is the position of the first case with that key. |
| EnumVectors.CaseCodersWellBehaved | packages/abi-coder/src/encoding/coders/v1/EnumCoder.test.ts:16 | The boolean (1 byte) and u64 (8 bytes) case coders are fixed-width and lossless. |
| EnumVectors.TestEnumCasesRoundTrip | packages/abi-coder/src/encoding/coders/v1/EnumCoder.test.ts:16 | Both cases of `TestEnum` are lossless, which is what the enum round trip needs. |
| EnumVectors.EncodeCaseA | packages/abi-coder/src/encoding/coders/v1/EnumCoder.test.ts:18-23 | `{ a: true }` encodes to eight zero bytes then 1. |
| EnumVectors.DecodeCaseA | packages/abi-coder/src/encoding/coders/v1/EnumCoder.test.ts:25-35 | Those 9 bytes decode to `{ a: true }` with next offset 9. |
| EnumVectors.EncodeCaseB | packages/abi-coder/src/encoding/coders/v1/EnumCoder.test.ts:37-44 | `{ b: U64_MAX }` encodes to the word 1 then eight bytes of 255. |
| EnumVectors.DecodeCaseB | packages/abi-coder/src/encoding/coders/v1/EnumCoder.test.ts:46-56 | Those 16 bytes decode to `{ b: U64_MAX }` with next offset 16. |
| EnumVectors.EncodeNoCase | packages/abi-coder/src/encoding/coders/v1/EnumCoder.test.ts:58-63 | `{}` fails with DECODE_ERROR: a case field is required. |
| EnumVectors.DecodeInvalidIndex | packages/abi-coder/src/encoding/coders/v1/EnumCoder.test.ts:65-75 | Bytes 0..7 read as index 283686952306183, which fails with DECODE_ERROR naming that index and the cases `a`, `b`. |
| EnumVectors.DecodeEmpty | packages/abi-coder/src/encoding/coders/v1/EnumCoder.test.ts:77-82 | An empty buffer fails with DECODE_ERROR (invalid enum data size). |
| EnumVectors.TestEnumRoundTrip | packages/abi-coder/src/encoding/coders/v1/EnumCoder.test.ts:18-56 | Every value of either case round-trips, wherever its encoding sits in a buffer, and decodes to the offset just past it. |
| EnumVectors.TestEnumLengths | packages/abi-coder/src/encoding/coders/v1/EnumCoder.test.ts:18-56 | Only the keys `a` and `b` encode. The encoding is 9 bytes for `a` and 16 bytes for `b`, so the length depends on the active case. |

## Left out

- The leaf coders the factory builds are constructor tags in `CoderFactory.Coder`, with no layouts. This covers NumberCoder, U64Coder, RawSliceCoder, BooleanCoder, B256Coder, B512Coder, StringCoder, StdStringCoder, StructCoder, TupleCoder, and the v0 ArrayCoder and OptionCoder. Their source files are not part of this model.
- EnumCoder.ts is not part of this model. The enum layout follows the test vectors; of the error cases, the vectors fix only the missing key, an out-of-range index and the empty buffer.
- EnumCoder.Decode, unpinned branches: the model refuses every buffer shorter than 8 bytes with "invalid enum data size", though the vectors fix only the empty buffer (refused) and an 8-byte buffer (admitted). It also fails with "invalid u64 data size" when the buffer holds 8 bytes or more but fewer than 8 follow `offset`, and no vector covers that case.
- EnumCoder.Encode, unpinned branches: the model makes "more than one key" and "unknown key" fail with DECODE_ERROR, like the missing-key case. No vector fixes these classifications.
- The enum fixture's boolean coder writes 1 or 0 and rejects any other byte on decode; the 9-byte vector fixes only its width.
- The `type` strings, the regular expressions that match them, `parseInt`, and the construction of `ResolvedAbiType` from the ABI are not modelled. A type arrives already classified by `AbiTypes.TypeName`, and a Vec's type argument arrives already resolved.
- `getCoders` and `findOrThrow` are modelled by their evident contracts:
  - `getCoders` maps over components in order, and the first failure propagates;
  - `findOrThrow` returns the first match, or fails with ELEMENT_NOT_FOUND.

  Their sources are not part of this model. `getCoders` returns a record keyed by component name; duplicate names collapsing in that record is not modelled.
- A component list that is absent (`components!` on `undefined`) is not modelled. A type always has a (possibly empty) list.
- ByteCoder.Decode and VecCoder.DecodePayload: the library converts the count word with `bn(...).toNumber()` (ByteCoder.ts:32, VecCoder.ts:43), which throws a plain `Error` (not a `FuelError`) for a count of 2^53 or more. The model reads the exact 64-bit count instead, so such a count reaches the payload-size check and fails there with DECODE_ERROR ("invalid bytes byte data size" or "invalid vec byte data size") unless the buffer really holds the payload.
- The `Array.isArray` checks in ByteCoder.encode and VecCoder.encode are enforced by the argument types, so there is no error path for them.
- How the v0 U64Coder fails on fewer than 8 bytes is not part of this model. The model fails with DECODE_ERROR.
- `MAX_BYTES` is the parameter `maxBytes` rather than its concrete value.
- An element width of 0 in VecCoder, and a piece width of 0 in `Codecs.Chunk`, are excluded by a precondition: the source of `chunkByLength` is not part of this model, so its behaviour for width 0 is not visible.
- ByteCoder.Encode: takes integer elements only. `new Uint8Array` also accepts non-integer numbers (it truncates 1.5 to 1 and maps NaN to 0); that conversion is not modelled.
- `AbiTypes.TypeName.Plain` holds only names that none of the patterns (`str[N]`, arrays, `struct`, `enum`, tuples) would match; such names are written with their pattern's constructor. A `Plain` text such as `"struct Foo"` is outside the model, and `CoderFactory.NotFound` says nothing about what the library does with it.
- Error messages are reduced to an error kind plus a reason tag. `FuelError` plumbing is not modelled.

## Findings

| source | as written | input that shows it | evidently intended | confidence | as-written member | corrected member |
|---|---|---|---|---|---|---|
| packages/abi-coder/src/encoding/coders/v1/VecCoder.ts:37 | `data.length < this.encodedLength` rejects any buffer shorter than element width + 8 | The encoding of an empty vector, `[0,0,0,0,0,0,0,0]`, decoded at offset 0 with any element width > 0: it fails with "Invalid vec data size" | Admit a buffer of one word: every vector encoding holds at least its count word, and the payload check that follows already catches a short payload | medium, not executed | VecCoder.EmptyVecRejected | VecCoder.RoundTrip |
