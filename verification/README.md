# Protocol Buffers: wire codec, message views and text format

A Dafny model of three parts of the Protocol Buffers runtimes, with proofs about them.

**The JavaScript wire codec** (`Js`, `Varints`, `Words`, `Decimal`, `Arith`, `Utils`, `UtilsDecimal`, `Encoder`,
`Decoder`, `Utf8`, `Scalars`, `Wire`, `WireBytes`, `Bookmarks`, `Writer`, `Runs`, `Parsing`, `Reader`, `Skipping`,
`RoundTrip`, `Transmission`, `Counters`, `Agreement`). The encoder, decoder, writer and reader are classes whose methods update the same fields as
the original; loops keep their form. `Js` defines the bit operators by ToInt32 and ToUint32 (sections 9.5 and 9.6 of
ECMA-262 5.1). `Varints` and `Words` define the formats of the Protocol Buffers Encoding guide (sections "Base 128
Varints", "Signed Integers" and "Length-Delimited") without loops or halves, and `Wire` the encoding of a field tree by
recursion. Each method is proved against such a definition; the main results are lemmas about the definitions and
methods that connect real objects end to end: `Transmission.Transmit` (writer, result buffer, reader), `Runs.Run` (any
properly nested run of a writer), `Agreement` (two implementations of one conversion). A round trip cannot see a code that
writer and reader share, so `WireBytes` states the bytes with every tag, length and word written out, and `Scalars` checks
text against a strict UTF-8 decoder.

**Lazy views that agree with their data** (`MapFields`, `Compare`, `Paths`, `Messages`). `JsMap` joins a hash map and a backing
array by `arrClean`; `Message` is a data array split at a pivot, an extension object, wrappers on the heap and oneof
unions. `Valid()` is the agreement of the views and every operation keeps it. Structural comparison is proved to be
equality of normal forms, and these of what is seen along paths through the data.

**The Python text format** (`TextEscape`, `Tokens`, `TextFormat`, `TextGrammar`, `TextParser`, `TextRoundTrip`,
`TextSpacing`, `TextLaws`, `TextTables`, `Escapes`). The printer writes to a stream, the tokenizer and the parser consume
it step by step; each equals a specification on values (`Piece` lists, token lists), and parsing what was printed gives the message back.
`TextLaws` says what the grammar means for texts that no printer writes, and `Escapes` what an escaped text denotes.

Conventions. The JavaScript and Python integers are `int`, with every truncation written out. Assertions of the
original that a caller can violate with data are `Err` results; those on a caller's arguments are `requires` clauses.
A read past the end of a typed array is an explicit `undefined`. Specification functions (`ReadFields`, `SkipField`,
`MergeFields`, ...) are total: they give the error on malformed input, and the methods equal them on every input.

Where the code does not do what its comments say, the model follows the code and a lemma says when it matters:

- `unskipVarint` and the `count*Fields` loops compare with 128 where the encoder compares with 127:
  `Counters.UnskipExact`, `Counters.CountersExact`. The same loops fail for tags from 2^31 on, whose shifts turn negative.
- `skipGroup` does not skip payloads inside a group but reads them as headers: `Skipping.SkipGroupExact`,
  `Skipping.GroupSkipped`, `Skipping.GroupStopsEarly`.
- `readGroup` accepts some truncated groups and any end tag's number: `Transmission.TruncatedGroup`,
  `Transmission.MismatchedEndAccepted`.
- `writeString` drops unpaired high surrogates that are not last: `Utf8.CleanedIdentity`.
- `getResultBuffer` leaves `totalLength_` short: `Writer.BinaryWriter.GetResultBuffer`.
- `compareFields` uses `==`, which is no equivalence when a field holds values of different kinds:
  `Compare.CoercionBreaks`; the exact condition is `Compare.SameExactly`.
- Lengths of 2^32 and more are patched in wrongly: `Bookmarks.PatchedLengthExact`.

`dafny verify dfyconfig.toml` checks the whole project.

## Model

| member | source | states |
|---|---|---|
| `Transmission.WholeMessage` | extracted/js/binary/reader.js:265-302 | For every schema and finite field tree whose unknown groups can be skipped, the generated reading loop over the tree's encoding succeeds, returns exactly the known fields as a reader sees them, and stops with cursor and end at the end of the bytes |
| `Transmission.Transmit` | extracted/js/binary/writer.js:207-234 | Real writer, flattened result buffer, real reader: the fields come back as the projection of the tree, whatever blocks and bookmarks the writer used in between |
| `Transmission.ProjectUnchanged` | extracted/js/binary/reader.js:535-580 | The tree comes back unchanged if and only if every field is known, every 64-bit text is canonical and every high surrogate is paired (at every depth) |
| `Transmission.ProjectOne` | extracted/src/google/protobuf/compiler/js/js_generator.cc:2799-2837 | A field is read exactly when its number is in the schema; scalars come back as written, the text of a number as that of the signed 64-bit number, messages and groups as read by their own schema |
| `Transmission.ProjectJoined` | extracted/src/google/protobuf/compiler/js/js_generator.cc:2799-2837 | What is read of fields one behind the other is what is read of the first and then of the others |
| `Transmission.SeenUnchanged` | extracted/js/binary/reader.js:653-657 | One value comes back unchanged exactly when it is faithful |
| `Transmission.TextSurvives` | extracted/js/binary/reader.js:653-657 | A 64-bit decimal text comes back as written if and only if it has no leading zeros, no minus zero, and is in the signed range |
| `Transmission.ProjectTwice` | extracted/js/binary/reader.js:420-440 | Projecting by a full schema and then by a smaller one is projecting by the smaller one |
| `Transmission.UnknownFieldProjection` | extracted/js/binary/reader.js:420-440 | A reader with a smaller schema that skips the rest returns exactly the known fields of what the full reader returns |
| `Transmission.TruncatedGroup` | extracted/js/binary/reader.js:564-580 | A group whose end tag is missing at the end of the block is accepted if and only if the last tag read inside it was an end tag |
| `Transmission.TruncatedGroupAccepted` | extracted/js/binary/reader.js:564-580 | `readGroup` accepts the bytes of a truncated group that holds an empty group |
| `Transmission.MismatchedEndAccepted` | extracted/js/binary/reader.js:564-580 | A group closed by the end tag of any other group is accepted like the group itself; the bytes are the group's own exactly when the header left behind has its number |
| `RoundTrip.GroupEnds` | extracted/js/binary/reader.js:564-580 | Anywhere in a buffer, `readGroup` over encoded fields and any end tag returns their projection and stops behind that tag |
| `Skipping.SkipGroupExact` | extracted/js/binary/reader.js:390-413 | On all bytes: `skipGroup` succeeds exactly when the headers that `nextField` finds one after another are balanced up to an end tag of the group, and it stops behind that tag |
| `Skipping.GroupSkipped` | extracted/js/binary/reader.js:390-413 | A written group of varint fields and groups, to any depth, is skipped to its end if and only if all numbers inside, headers and payloads alike, are headers with matching start and end tags |
| `Skipping.GroupStopsEarly` | extracted/js/binary/reader.js:390-413 | It is cut short without an error if and only if some number inside reads as the group's end tag and the numbers before it are balanced |
| `Skipping.WrittenGroupStops` | extracted/js/binary/reader.js:390-413 | Skipping stops behind the k-th number exactly when that is the end tag and the numbers before it are balanced |
| `Skipping.OneVarintSkipped` | extracted/js/binary/reader.js:390-413 | A group with one varint field is skipped if and only if the value is 0, 1, 2 or 5 modulo 8, and cut short in silence if and only if the value is the group's end tag |
| `Skipping.SkipStopsEarly` | extracted/js/binary/reader.js:390-413 | The witness: after skipping such a group without an error the real end tag is still to be read |
| `Skipping.HarmlessBalanced` | extracted/js/binary/reader.js:390-413 | Groups in which no payload reads as a start tag, an end tag or no header at all are balanced, to any depth |
| `Skipping.OnlyGroupsBalanced` | extracted/js/binary/reader.js:390-413 | Groups that hold only groups are always balanced |
| `Skipping.NumberRead` | extracted/js/binary/reader.js:265-302 | `nextField` on any 64-bit varint: a header for numbers below 2^32 and for those whose upper half is all ones, when the wire type is valid, and an error for all others |
| `Skipping.NumbersWritten` | extracted/js/binary/writer.js:818-824 | The encoding of varint fields and groups is the encoding of their headers and payloads one after another |
| `Transmission.SkipGroupMisreads` | extracted/js/binary/reader.js:390-413 | One error case: a value ending in the bits 110 or 111 is reported as an invalid wire type |
| `Decoder.ReadTooLarge` | extracted/js/binary/decoder.js:545-608 | The 32-bit reader fails on every other 64-bit number from 2^32 on |
| `Decoder.ReadHighOnes` | extracted/js/binary/decoder.js:545-608 | It takes every 64-bit number whose upper half is all ones for a sign-extended one |
| `RoundTrip.FieldsBack` | extracted/src/google/protobuf/compiler/js/js_generator.cc:2799-2837 | Anywhere in a buffer, whatever follows, the loop over an encoded list of fields yields its projection, lands just behind it with the block's end unchanged, and leaves the predicted last wire type |
| `RoundTrip.MessageBack` | extracted/js/binary/reader.js:535-553 | `readMessage` over an encoded nested message returns its projection, restores the outer end and leaves the cursor on the next header |
| `RoundTrip.GroupBack` | extracted/js/binary/reader.js:564-580 | `readGroup` does the same over an encoded group and consumes its end tag |
| `RoundTrip.ScalarBack` | extracted/js/binary/reader.js:608-612 | Every scalar kind: reading the encoding gives the value as seen and consumes exactly its bytes |
| `RoundTrip.SkipBack` | extracted/js/binary/reader.js:420-440 | `skipField` lands exactly where a full read would, for varint, fixed, delimited fields and balanced groups |
| `RoundTrip.SkipGroupBack` | extracted/js/binary/reader.js:390-413 | `skipGroup` crosses a written group of varint fields and groups whose numbers balance, to any depth, and stops behind the matching end tag |
| `RoundTrip.PackedVarintsBack` | extracted/js/binary/reader.js:978-989 | The packed loop returns the written numbers and stops at the end of the block |
| `RoundTrip.PackedWordsBack` | extracted/js/binary/reader.js:1107-1109 | The same for packed fixed-width words |
| `Runs.Run` | extracted/js/binary/writer.js:132-162 | For every properly nested sequence of begin, end, append and field writes the bookkeeping is right after each call (`totalLength_` plus the pending bytes are all bytes written) and the result buffer is the recursive encoding header, length, body of what was written |
| `Runs.ItemsWritten` | extracted/js/binary/writer.js:132-162 | The stack of open levels after a run equals the recursive encoding of the items it denotes, appended to the innermost level |
| `Runs.NestedItems` | extracted/js/binary/writer.js:252-264 | Every properly nested sequence of calls denotes a tree of items, and what is left over starts with the closing call |
| `Runs.Perform` | extracted/js/binary/writer.js:252-264 | Each call keeps the writer valid and every open message paired with its bookmark, and changes the levels as the call says |
| `Runs.CallsBuild` | extracted/js/binary/writer.js:252-264 | Writing a tree of fields call by call, nested messages between `beginSubMessage` and `endSubMessage`, is a properly nested run whose items have the encoding of the tree |
| `Runs.RunFields` | extracted/js/binary/writer.js:207-264 | So the real writer, run call by call, gives the encoding of the tree |
| `Runs.BytesJoined` | extracted/js/binary/writer.js:207-234 | Items stand on the wire one behind the other |
| `Runs.OneItem` | extracted/js/binary/writer.js:132-162 | A message is the varint of 8 * field + 2, the varint of its length, and its body |
| `WireBytes.FieldTag` | extracted/js/binary/constants.js:204-211 | Every field starts with the varint of eight times its number plus 0 for varints, 1 for eight bytes, 2 for lengths, 3 for groups and 5 for four bytes |
| `WireBytes.VarintPayload` | extracted/js/binary/writer.js:457-574 | Varint payloads: the number, the 64-bit two's complement, or 2v and -2v - 1 for zigzag numbers |
| `WireBytes.TextPayload` | extracted/js/binary/writer.js:499-504 | A decimal text is written as the varint of its number modulo 2^64 |
| `WireBytes.HashPayload` | extracted/js/binary/writer.js:847-852 | Eight bytes are written as the varint of the number they make, the first byte counting least |
| `WireBytes.FixedPayload` | extracted/js/binary/writer.js:611-617 | Fixed-width payloads are four bytes, the first one counting least, and eight bytes unchanged |
| `WireBytes.BodyPayload` | extracted/js/binary/writer.js:752-824 | Bytes, text and messages are written behind their length; a group ends with the varint of eight times its number plus 4 |
| `WireBytes.PackedPayload` | extracted/js/binary/writer.js:1241-1423 | Packed payloads: the length in bytes, then the numbers without tags, every word at its place |
| `WireBytes.HeaderRead` | extracted/js/binary/reader.js:265-302 | A header is eight times the field number plus the wire type 0 to 5; 6 and 7 are errors |
| `WireBytes.SkipBytes` | extracted/js/binary/reader.js:420-440 | On any bytes wire type 5 skips exactly four bytes, wire type 1 exactly eight, and 4 is an error |
| `WireBytes.SkipLength` | extracted/js/binary/reader.js:347-356 | Wire type 2 skips a length and exactly that many bytes |
| `WireBytes.SkipSeptets` | extracted/js/binary/reader.js:333-341 | Wire type 0 skips exactly to the first byte below 128 |
| `WireBytes.FixedRead` | extracted/js/binary/decoder.js:785-793 | Fixed-width fields on any bytes: the number of the four bytes, and the eight bytes |
| `WireBytes.WireTypesChecked` | extracted/js/binary/reader.js:608-612 | Every reader accepts exactly one wire type: 0, 1, 2, 3 or 5 |
| `WireBytes.VarintRead` | extracted/js/binary/decoder.js:545-608 | Varint fields on any bytes: the number, its two's complement, its zigzag meaning and its signed decimal |
| `WireBytes.HashRead` | extracted/js/binary/decoder.js:1042-1045 | A 64-bit varint read as a hash: eight bytes that make the number, the first one counting least |
| `WireBytes.TextRead` | extracted/js/binary/decoder.js:950-1012 | A text field whose bytes are valid UTF-8 gives the UTF-16 form of its scalar values |
| `WireBytes.LongVarint` | extracted/js/binary/decoder.js:458-503 | Ten bytes with the high bit set are no varint; five, or a fifth byte from 16 on, are no unsigned 32-bit varint |
| `WireBytes.ExampleNested` | extracted/js/binary/writer.js:791-797 | The example of the encoding guide, byte for byte: 1a 03 08 96 01 |
| `WireBytes.ExamplePacked` | extracted/js/binary/writer.js:1241-1248 | The packed example of the guide: 22 06 03 8e 02 9e a7 05 |
| `WireBytes.ExampleFixed32` | extracted/js/binary/writer.js:611-617 | 0d 07 00 00 00 |
| `WireBytes.ExampleGroup` | extracted/js/binary/writer.js:818-824 | 0b 10 03 0c |
| `Writer.BinaryWriter.constructor` | extracted/js/binary/writer.js:77-109 | A new writer is valid and empty |
| `Writer.BinaryWriter.AppendUint8Array` | extracted/js/binary/writer.js:117-123 | Flushing the encoder and appending a typed array adds exactly those bytes to the innermost open message |
| `Writer.BinaryWriter.BeginDelimited` | extracted/js/binary/writer.js:132-139 | The header goes to the open message, a new level opens, and the encoder's old buffer becomes the bookmark that holds the saved length |
| `Writer.BinaryWriter.EndDelimited` | extracted/js/binary/writer.js:149-162 | The bookmark gives up its saved length and gets the varint of the bytes written since; the level is closed into the enclosing one |
| `Writer.BinaryWriter.TotalLengthCounts` | extracted/js/binary/writer.js:117-162 | In every reachable state `totalLength_` counts the real bytes of the blocks, one less than their elements for each open bookmark |
| `Writer.BinaryWriter.BeginSubMessage` | extracted/js/binary/writer.js:252-254 | Opens a level and pushes its bookmark |
| `Writer.BinaryWriter.EndSubMessage` | extracted/js/binary/writer.js:261-264 | Pops the last bookmark and closes that level; no block is added |
| `Writer.BinaryWriter.GetResultBuffer` | extracted/js/binary/writer.js:207-234 | With all messages closed the flattened buffer is what was written, the final offset assertion holds, and `totalLength_` is left short of the flushed tail, so the writer is spent unless the tail was empty |
| `Writer.BinaryWriter.Reset` | extracted/js/binary/writer.js:195-200 | From any state, even a spent writer, the writer is valid and empty again |
| `Writer.BinaryWriter.WriteFieldHeader` | extracted/js/binary/writer.js:275-280 | Appends the varint of `8 * field + wireType` |
| `Writer.BinaryWriter.WriteUint32` | extracted/js/binary/writer.js:513-518 | Appends the encoded field |
| `Writer.BinaryWriter.WriteInt32` | extracted/js/binary/writer.js:457-462 | Appends the encoded field, sign-extended to 64 bits |
| `Writer.BinaryWriter.WriteSint32` | extracted/js/binary/writer.js:569-574 | Appends the encoded zigzag field |
| `Writer.BinaryWriter.WriteEnum` | extracted/js/binary/writer.js:738-744 | Appends the encoded field |
| `Writer.BinaryWriter.WriteInt64String` | extracted/js/binary/writer.js:499-504 | Appends the varint of the number that the text denotes, modulo 2^64 |
| `Writer.BinaryWriter.WriteVarintHash64` | extracted/js/binary/writer.js:847-852 | Appends the varint of the eight little-endian bytes |
| `Writer.BinaryWriter.WriteFixed32` | extracted/js/binary/writer.js:611-617 | Appends the word's four bytes behind its header |
| `Writer.BinaryWriter.WriteFixedHash64` | extracted/js/binary/writer.js:833-838 | Appends the eight bytes behind their header |
| `Writer.BinaryWriter.WriteBytes` | extracted/js/binary/writer.js:766-772 | Appends header, length and bytes, though the bytes go into a block of their own |
| `Writer.BinaryWriter.WriteString` | extracted/js/binary/writer.js:752-757 | Appends header, UTF-8 length and UTF-8 bytes, the length being patched in afterwards |
| `Writer.BinaryWriter.WritePackedInt32` | extracted/js/binary/writer.js:1241-1248 | Appends the packed field; an empty array writes nothing at all |
| `Writer.BinaryWriter.WritePackedFixed32` | extracted/js/binary/writer.js:1416-1423 | Appends the packed field with the length known beforehand; an empty array writes nothing |
| `Writer.BinaryWriter.WriteMessage` | extracted/js/binary/writer.js:791-797 | Appends header, length and the body that the callback writes, to any depth |
| `Writer.BinaryWriter.WriteGroup` | extracted/js/binary/writer.js:818-824 | Appends start tag, body and end tag |
| `Writer.BinaryWriter.WriteFields` | extracted/js/binary/writer.js:791-797 | A writer callback leaves exactly the recursive encoding of its fields behind, and all bookmarks closed |
| `Bookmarks.TotalCounts` | extracted/js/binary/writer.js:117-162 | The layout invariant implies the count of real bytes, at every nesting depth |
| `Bookmarks.LayoutEnd` | extracted/js/binary/writer.js:149-162 | Replacing the saved length by the length bytes in a block in the middle keeps the layout, and the saved length is the number of bytes before the level |
| `Bookmarks.LayoutFlush` | extracted/js/binary/writer.js:117-123 | Adding blocks keeps the layout and appends their bytes to the innermost level |
| `Bookmarks.PatchedLengthExact` | extracted/js/binary/writer.js:149-162 | The patched length is the varint of the body's length if and only if that is below 2^32, since `>>> 7` keeps 32 bits |
| `Encoder.BinaryEncoder.End` | extracted/js/binary/encoder.js:70-76 | Hands out the buffer and starts a fresh one |
| `Encoder.BinaryEncoder.WriteSplitVarint64` | extracted/js/binary/encoder.js:83-99 | Appends the minimal base-128 encoding of the 64-bit number the halves make |
| `Encoder.BinaryEncoder.WriteSplitFixed64` | extracted/js/binary/encoder.js:108-117 | Appends the eight bytes, low half first |
| `Encoder.BinaryEncoder.WriteUnsignedVarint32` | extracted/js/binary/encoder.js:125-136 | Appends the minimal encoding |
| `Encoder.BinaryEncoder.WriteSignedVarint32` | extracted/js/binary/encoder.js:144-164 | Appends the minimal encoding of the 64-bit sign extension: ten bytes when negative |
| `Encoder.BinaryEncoder.WriteZigzagVarint32` | extracted/js/binary/encoder.js:204-209 | Appends the encoding of the zigzag number |
| `Encoder.BinaryEncoder.WriteUint32` | extracted/js/binary/encoder.js:270-278 | Appends the four little-endian bytes |
| `Encoder.BinaryEncoder.WriteVarintHash64` | extracted/js/binary/encoder.js:430-434 | Appends the encoding of the little-endian number of the eight bytes |
| `Encoder.BinaryEncoder.WriteFixedHash64` | extracted/js/binary/encoder.js:442-446 | Appends the eight bytes themselves, through two halves |
| `Varints.VarintSound` | extracted/js/binary/encoder.js:83-99 | The encoding is terminated, minimal, and has the value encoded |
| `Varints.MinimalUnique` | extracted/js/binary/encoder.js:83-99 | Every terminated minimal byte string is the encoding of its value: the encoding is unique |
| `Varints.PrefixFree` | extracted/js/binary/decoder.js:458-499 | A terminated varint is determined by the bytes that start with it, whatever follows |
| `Varints.VarintLength` | extracted/js/binary/encoder.js:83-99 | The encoding has at most k bytes if and only if the number is below 2^(7k) |
| `Agreement.SignedBytesAgree` | extracted/js/binary/encoder.js:144-164 | `writeSignedVarint32` and `writeSplitVarint64` of the sign extension write the same bytes, for every int32 |
| `Decoder.BinaryDecoder.ReadSplitVarint64` | extracted/js/binary/decoder.js:458-499 | On every input: the base-128 value modulo 2^64 of the bytes up to the first one below 128 within ten, and an error when there is none; the cursor lands behind it |
| `Decoder.ReadTerminated` | extracted/js/binary/decoder.js:458-499 | On any terminated varint of at most ten bytes, minimal or not, the 64-bit reader returns its value modulo 2^64 and consumes exactly those bytes, whatever follows |
| `Decoder.ReadSplit` | extracted/js/binary/decoder.js:458-499 | Reading an encoding gives the 64-bit number back, within ten bytes |
| `Decoder.BinaryDecoder.ReadUnsignedVarint32` | extracted/js/binary/decoder.js:545-608 | On every input, the unrolled reader agrees with the specification: short varints, the fifth byte's high bits, sign-extended ten-byte varints, the end of the block |
| `Decoder.ReadUnsigned` | extracted/js/binary/decoder.js:545-608 | Reading an unsigned 32-bit encoding gives the number back |
| `Decoder.ReadSigned` | extracted/js/binary/decoder.js:545-618 | Reading a signed 32-bit encoding passes all sign-extension assertions and gives the number back, and the 64-bit reader that `readEnum` uses returns the same number |
| `Decoder.BinaryDecoder.ReadZigzagVarint32` | extracted/js/binary/decoder.js:658-661 | Returns the number whose zigzag image was read |
| `RoundTrip.ZigzagSmall` | extracted/js/binary/decoder.js:658-661 | The 32-bit zigzag map is inverted by the reader for every int32 |
| `Decoder.BinaryDecoder.ReadSignedVarint64` | extracted/js/binary/decoder.js:698-701 | Returns the two's complement of the 64-bit number read |
| `Decoder.BinaryDecoder.ReadVarintHash64` | extracted/js/binary/decoder.js:1043-1046 | Returns the eight bytes of the 64-bit number read |
| `Decoder.BinaryDecoder.ReadFixedHash64` | extracted/js/binary/decoder.js:1055-1072 | Returns the eight bytes at the cursor, without looking at the end of the block |
| `Decoder.BinaryDecoder.ReadUint32` | extracted/js/binary/decoder.js:785-793 | Returns the little-endian word, or an error past the end of the block |
| `Decoder.BinaryDecoder.ReadInt32` | extracted/js/binary/decoder.js:857-865 | The same word as a signed number |
| `Decoder.BinaryDecoder.ReadBytes` | extracted/js/binary/decoder.js:1021-1035 | The bytes at the cursor, or the error flag when they are not all there |
| `Decoder.BinaryDecoder.Advance` | extracted/js/binary/decoder.js:408-411 | Moves the cursor and fails past the end of the block |
| `Decoder.BinaryDecoder.SkipVarintBytes` | extracted/js/binary/decoder.js:505-510 | Moves behind the first byte below 128 |
| `RoundTrip.SkipTerminated` | extracted/js/binary/decoder.js:505-510 | Skipping a terminated varint, however long, consumes exactly its bytes |
| `Decoder.BinaryDecoder.UnskipVarint` | extracted/js/binary/decoder.js:518-524 | Moves back by the number of steps the `> 128` loop takes |
| `Counters.UnskipExact` | extracted/js/binary/decoder.js:518-524 | That is the length of the encoding, less one if and only if some quotient v / 128^j is exactly 128 |
| `Utf8.WriteString` | extracted/js/binary/encoder.js:455-492 | Appends the UTF-8 encoding of the UTF-16 units and returns its length |
| `Utf8.ReadString` | extracted/js/binary/decoder.js:950-1000 | Decodes like the unit-by-unit specification, so flushing every 8192 units changes nothing |
| `Utf8.ReadCharacter` | extracted/js/binary/decoder.js:950-1000 | One turn of the loop decodes one character of one to four bytes, well formed or not |
| `Utf8.DecodeEncoded` | extracted/js/binary/decoder.js:950-1000 | For every sequence of UTF-16 units, reading what was written removes exactly the high surrogates that are followed by a unit that is no low surrogate, and consumes exactly the written bytes |
| `Utf8.CleanedIdentity` | extracted/js/binary/encoder.js:455-492 | Nothing is removed if and only if no such high surrogate occurs |
| `Utf8.DecodeEncodedWellFormed` | extracted/js/binary/decoder.js:950-1000 | On well-formed UTF-16, reading undoes writing |
| `Scalars.WrittenScalars` | extracted/js/binary/encoder.js:455-492 | For all units: a strict decoder of RFC 3629 (shortest forms, no surrogates) reads from the bytes written exactly the scalar values of the units without the dropped high surrogates, and nothing when these are not well formed |
| `Scalars.WellFormedWritten` | extracted/js/binary/encoder.js:455-492 | Well-formed UTF-16 is written as valid UTF-8 for exactly its scalar values |
| `Scalars.ValidWritten` | extracted/js/binary/encoder.js:455-492 | For all units the bytes are valid UTF-8 if and only if every low surrogate follows a high one and no high surrogate is last |
| `Scalars.WellFormedScalars` | extracted/js/binary/encoder.js:455-492 | Units are well formed exactly when they have scalar values |
| `Scalars.StrictIsValid` | extracted/js/binary/encoder.js:455-492 | The strict decoder succeeds exactly on valid UTF-8 |
| `Scalars.ReadScalars` | extracted/js/binary/decoder.js:950-1000 | On valid UTF-8 `readString` gives the UTF-16 form of exactly its scalar values |
| `Scalars.AnyRead` | extracted/js/binary/decoder.js:950-1000 | On any bytes: what cannot start a character is skipped, and behind a byte that can, the low six bits of the next bytes are taken |
| `Scalars.AnyFourRead` | extracted/js/binary/decoder.js:950-1000 | Four bytes give a pair of surrogates for their number, modulo 2^20 |
| `Utils.SplitRegisters.SplitUint64` | extracted/js/binary/utils.js:74-82 | The halves make the number modulo 2^64 |
| `Utils.SplitRegisters.SplitInt64` | extracted/js/binary/utils.js:90-116 | The halves are the two's complement of every integer, modulo 2^64 |
| `Utils.SplitRegisters.SplitZigzag64` | extracted/js/binary/utils.js:123-150 | The halves are the zigzag number modulo 2^64, also for -2^63, where the doubled magnitude wraps to zero before the borrow |
| `Utils.SplitRegisters.SplitHash64` | extracted/js/binary/utils.js:275-288 | The halves make the little-endian number of the eight bytes |
| `Utils.JoinInt64` | extracted/js/binary/utils.js:309-324 | The signed number whose two's complement the halves are |
| `Utils.JoinZigzag64` | extracted/js/binary/utils.js:332-348 | The signed number whose zigzag image the halves are |
| `Utils.JoinHash64` | extracted/js/binary/utils.js:417-429 | Eight bytes whose little-endian number the halves make |
| `Utils.HashUnique` | extracted/js/binary/utils.js:417-429 | The bytes are determined by the number |
| `Agreement.SplitsJoinBack` | extracted/js/binary/utils.js:90-150 | `joinInt64` undoes `splitInt64` and `joinZigzag64` undoes `splitZigzag64` on all signed 64-bit values, -2^63 included |
| `Agreement.JoinsSplitBack` | extracted/js/binary/utils.js:309-348 | And the other way round, on all pairs of halves |
| `UtilsDecimal.JoinUnsignedDecimalString` | extracted/js/binary/utils.js:448-510 | Prints the canonical decimal of every 64-bit value through its 16:24:24 pieces and base-10^7 digits |
| `UtilsDecimal.BaseDigits` | extracted/js/binary/utils.js:464-475 | The two lower intermediate digits stay below 2^48 and the three digits make the number of the pieces |
| `UtilsDecimal.Carried` | extracted/js/binary/utils.js:475-487 | The carries keep the value and leave the top digit below 10^7 |
| `UtilsDecimal.Emit` | extracted/js/binary/utils.js:489-503 | One group of seven digits continues the decimal with leading zeros stripped |
| `UtilsDecimal.JoinSignedDecimalString` | extracted/js/binary/utils.js:520-532 | Prints the canonical signed decimal of the two's complement |
| `UtilsDecimal.DecimalStringToHash64` | extracted/js/binary/utils.js:576-617 | For every non-empty digit string with optional minus, eight bytes of the two's complement modulo 2^64 |
| `UtilsDecimal.DigitIndexFinds` | extracted/js/binary/utils.js:607 | What `indexOf` finds in the digit table, and -1 exactly for characters that are not in it |
| `UtilsDecimal.MulAdd` | extracted/js/binary/utils.js:589-596 | In-place multiply-add over the eight bytes, modulo 2^64 |
| `UtilsDecimal.Neg` | extracted/js/binary/utils.js:598-603 | Complements all eight bytes |
| `Agreement.UnsignedTextAgrees` | extracted/js/binary/utils.js:448-510 | Both unsigned printers give the same text for every pair of halves, and both parsers read the value back from it |
| `Agreement.SignedTextAgrees` | extracted/js/binary/utils.js:520-532 | The same for the signed printers and parsers |
| `Agreement.ParsersAgree` | extracted/js/binary/utils.js:576-617 | `decimalStringToHash64` and `Int64.fromString` give the same value modulo 2^64 for every non-empty digit string, signed or not, however long |
| `Decimal.UnsignedDenotes` | extracted/js/binary/arith.js:268-281 | The canonical decimal denotes its number and starts with a zero only for zero |
| `Decimal.CanonicalUnique` | extracted/js/binary/arith.js:268-281 | Every digit string without leading zeros is the canonical decimal of its number |
| `Arith.UInt64.Cmp` | extracted/js/binary/arith.js:73-80 | The sign of the comparison of the 64-bit values |
| `Arith.UInt64.RightShift` | extracted/js/binary/arith.js:88-92 | Halves the 64-bit value |
| `Arith.UInt64.LeftShift` | extracted/js/binary/arith.js:99-103 | Doubles the 64-bit value modulo 2^64 |
| `Arith.UInt64.Msb` | extracted/js/binary/arith.js:110-112 | True exactly from 2^63 on |
| `Arith.UInt64.Zero` | extracted/js/binary/arith.js:128-130 | True exactly for zero |
| `Arith.UInt64.AddVal` | extracted/js/binary/arith.js:138-144 | Addition is addition modulo 2^64, carries between the halves included |
| `Arith.UInt64.SubVal` | extracted/js/binary/arith.js:152-158 | Subtraction is subtraction modulo 2^64, borrows included |
| `Arith.Mul32x32` | extracted/js/binary/arith.js:167-198 | The exact 64-bit product of any two 32-bit numbers, through 16-bit limbs and at most two carries |
| `Arith.Mul` | extracted/js/binary/arith.js:208-215 | The product modulo 2^64 |
| `Arith.Div` | extracted/js/binary/arith.js:227-260 | Nothing for a zero divisor; otherwise the loops end and give quotient and remainder with n = q * d + r and r < d |
| `Arith.DivisionUnique` | extracted/js/binary/arith.js:227-260 | There is only one such pair |
| `Arith.UInt64ToString` | extracted/js/binary/arith.js:268-281 | The canonical decimal |
| `Arith.UInt64FromString` | extracted/js/binary/arith.js:289-302 | Nothing exactly for strings with a character that is no digit, otherwise the number modulo 2^64 |
| `Arith.Int64ToString` | extracted/js/binary/arith.js:384-392 | The canonical signed decimal |
| `Arith.Int64FromString` | extracted/js/binary/arith.js:400-413 | The two's complement modulo 2^64, nothing exactly when something but digits follows the optional minus |
| `Arith.ParsePrintUnsigned` | extracted/js/binary/arith.js:289-302 | Parsing undoes printing on all unsigned 64-bit values |
| `Arith.ParsePrintSigned` | extracted/js/binary/arith.js:400-413 | Parsing undoes printing on all signed 64-bit values, -2^63 included |
| `Reader.BinaryReader.constructor` | extracted/js/binary/reader.js:66-105 | A new reader stands at the start of its bytes without a field |
| `Reader.BinaryReader.NextField` | extracted/js/binary/reader.js:265-302 | Reads one header or stops at the end; an invalid wire type fails |
| `Parsing.NextFieldProgress` | extracted/js/binary/reader.js:265-302 | A header moves the cursor forward within the block and the bytes, so loops over fields end |
| `Reader.BinaryReader.SkipField` | extracted/js/binary/reader.js:420-440 | Skips as specified for every wire type, errors included |
| `Reader.BinaryReader.SkipGroup` | extracted/js/binary/reader.js:390-413 | The loop with its stack of open groups equals the recursive specification |
| `Reader.BinaryReader.UnskipHeader` | extracted/js/binary/reader.js:308-310 | Moves back by what `unskipVarint` makes of the rebuilt 32-bit header |
| `Reader.BinaryReader.SkipMatchingFields` | extracted/js/binary/reader.js:316-327 | Skips the run of fields with the current number and steps back to the next header |
| `Reader.BinaryReader.ReadMessage` | extracted/js/binary/reader.js:535-553 | Reads within a narrowed end and restores it |
| `Reader.BinaryReader.ReadGroup` | extracted/js/binary/reader.js:564-580 | Reads up to an end tag, checking only the last wire type |
| `Reader.BinaryReader.ReadUint32` | extracted/js/binary/reader.js:666-670 | Reads as specified, wrong wire types and errors included |
| `Reader.BinaryReader.ReadInt32` | extracted/js/binary/reader.js:608-612 | Reads as specified, wrong wire types and errors included |
| `Reader.BinaryReader.ReadSint32` | extracted/js/binary/reader.js:725-729 | Reads as specified, wrong wire types and errors included |
| `Reader.BinaryReader.ReadEnum` | extracted/js/binary/reader.js:909-913 | Reads as specified, through the 64-bit reader |
| `Reader.BinaryReader.ReadInt64String` | extracted/js/binary/reader.js:653-657 | Reads the canonical signed decimal of the varint |
| `Reader.BinaryReader.ReadFixed32` | extracted/js/binary/reader.js:767-771 | Reads as specified, wrong wire types and errors included |
| `Reader.BinaryReader.ReadString` | extracted/js/binary/reader.js:922-927 | Reads length and string |
| `Reader.BinaryReader.ReadBytes` | extracted/js/binary/reader.js:936-941 | Reads length and bytes |
| `Reader.BinaryReader.ReadVarintHash64` | extracted/js/binary/reader.js:951-955 | Reads as specified, wrong wire types and errors included |
| `Reader.BinaryReader.ReadFixedHash64` | extracted/js/binary/reader.js:965-969 | Reads as specified, wrong wire types and errors included |
| `Reader.BinaryReader.ReadPackedInt32` | extracted/js/binary/reader.js:978-999 | Reads numbers until the cursor has reached the end of the packed block |
| `Reader.BinaryReader.ReadPackedFixed32` | extracted/js/binary/reader.js:1107-1109 | The same for words |
| `Reader.BinaryReader.DeserializeFields` | extracted/src/google/protobuf/compiler/js/js_generator.cc:2799-2837 | The generated loop: known fields by type, unknown fields skipped, end tags stop |
| `Counters.CountersExact` | extracted/js/binary/utils.js:734-898 | For a field number and wire type, the counter equals the count of a `nextField`/`skipField` loop on every written message if and only if the tag is below 2^31 and no quotient of it by a power of 128 is exactly 128 |
| `Counters.CountWritten` | extracted/js/binary/utils.js:734-898 | For such tags the counter returns the number of leading fields with this tag |
| `Counters.LoopCountWritten` | extracted/js/binary/reader.js:420-440 | The loop over `nextField` and `skipField` returns that number for every tag |
| `Counters.CountWrong` | extracted/js/binary/utils.js:758 | For every other tag there is a message of two such fields on which the counter falls short |
| `Counters.StopsEarlyMeans` | extracted/js/binary/utils.js:758 | The `> 128` loop goes wrong exactly when some quotient is exactly 128 |
| `Counters.MatchTagBytes` | extracted/js/binary/utils.js:755-763 | The loop that compares tag bytes, on every buffer and tag |
| `Counters.CountVarintFields` | extracted/js/binary/utils.js:734-775 | Agrees with the counting specification on every buffer |
| `Counters.CountFixedFields` | extracted/js/binary/utils.js:790-826 | Agrees with the counting specification on every buffer, for both strides |
| `Counters.CountFixed32Fields` | extracted/js/binary/utils.js:837-840 | Agrees with the counting specification |
| `Counters.CountFixed64Fields` | extracted/js/binary/utils.js:852-855 | Agrees with the counting specification |
| `Counters.CountDelimitedFields` | extracted/js/binary/utils.js:867-898 | Agrees with the counting specification on every buffer, the hand-written length loop included |
| `Counters.ReadLength` | extracted/js/binary/utils.js:884-892 | The hand-written length loop returns the base-128 value of the bytes it skips |
| `Counters.CountVarints` | extracted/js/binary/utils.js:711-722 | The range's length less the bytes with the high bit set |
| `Counters.VarintsCounted` | extracted/js/binary/utils.js:711-722 | That is the number of `skipVarint` steps over the range, less one exactly when the range ends inside a varint |
| `Counters.UnskipHeaderExact` | extracted/js/binary/reader.js:308-310 | `unskipHeader` lands on the header if and only if the tag is good in the sense above |
| `Counters.SkipRunWritten` | extracted/js/binary/reader.js:316-327 | Over written fields the loop stops behind the header of the first field with another number, or at the end |
| `Counters.SkipMatchingWritten` | extracted/js/binary/reader.js:316-327 | For good tags, skipping matching fields from the first header lands exactly on the first field with another number |
| `Counters.SkipMatchingExact` | extracted/js/binary/reader.js:316-327 | It lands there if and only if the tags of the run's first field and of the first field behind it are good |
| `Counters.BadTagSkipsNothing` | extracted/js/binary/reader.js:316-327 | From a bad tag it ends before the first payload, if it does not fail |
| `MapFields.JsMap.constructor` | extracted/js/map.js:59-77 | The hash map is the backing array folded from the left: every key has the value of its last record, and none when it has no record |
| `MapFields.JsMap.LoadFromArray` | extracted/js/map.js:84-92 | The loading loop is that fold |
| `MapFields.JsMap.ToArray` | extracted/js/map.js:99-130 | A dirty map rewrites its array as the sorted duplicate-free list of its entries, a clean one leaves it; afterwards the array folds to the map |
| `MapFields.JsMap.StringKeys` | extracted/js/map.js:498-507 | Every key once |
| `MapFields.JsMap.Set` | extracted/js/map.js:346-359 | The key has the value, every other key has what it had (a number key is the same as another key exactly when they are equal numbers or the other is its decimal notation), the length grows by one exactly for a new key, and the array is stale |
| `MapFields.JsMap.Del` | extracted/js/map.js:245-251 | The key has no value, every other key has what it had, and the answer and the length say whether there was one |
| `MapFields.JsMap.Clear` | extracted/js/map.js:231-234 | Removes all entries |
| `MapFields.JsMap.Get` | extracted/js/map.js:386-394 | The value of the key, or nothing |
| `MapFields.JsMap.GetLength` | extracted/js/map.js:223-225 | The number of entries |
| `MapFields.NamesApart` | extracted/js/map.js:84-92 | Two keys are filed under one string exactly when they are equal numbers, equal texts, or a number and its decimal notation without superfluous zeros |
| `MapFields.NumberNotation` | extracted/js/map.js:346-359 | The string of a number is its decimal notation and nothing else is |
| `MapFields.FoldLookup` | extracted/js/map.js:84-92 | After loading, every key has the value of its last record |
| `MapFields.FiledLookup` | extracted/js/map.js:346-359 | Filing or removing a value changes what its key has and nothing else |
| `MapFields.BeforeMeans` | extracted/js/map.js:116-118 | Strings are sorted by their first different unit, a prefix first |
| `MapFields.EntryBytes` | extracted/js/map.js:423-439 | An entry is its tag and length, then the key behind 08 or 0a and the value as field 2 |
| `MapFields.JsMap.SerializeBinary` | extracted/js/map.js:423-439 | The bytes are those of the entries in sorted order, so they depend on the contents only |
| `MapFields.ListingUnique` | extracted/js/map.js:99-130 | Two sorted lists of records that fold to the same map are equal |
| `MapFields.NamesListing` | extracted/js/map.js:99-130 | Listing the records of all keys in ascending order is such a list |
| `MapFields.FoldKeyed` | extracted/js/map.js:84-92 | Each entry sits under its own key's string |
| `MapFields.SortedAscending` | extracted/js/map.js:116-118 | Sorting distinct keys by UTF-16 units gives a strictly ascending list |
| `MapFields.DeserializeBinary` | extracted/js/map.js:462-489 | One entry message sets one key, the last key and value field winning, and fails without them; the map stays valid on every input |
| `MapFields.ReadMapMessage` | extracted/src/google/protobuf/compiler/js/js_generator.cc:2847-2870 | The generated loop over a map field equals its specification on every input |
| `MapFields.EntryLoopBack` | extracted/js/map.js:462-489 | Reading a written entry gives its key and value as a reader sees them: texts canonical, unpaired high surrogates removed |
| `MapFields.MapStepBack` | extracted/js/map.js:462-489 | One written entry anywhere in a buffer updates the map under construction with the record as a reader sees it |
| `MapFields.MapRebuilt` | extracted/js/map.js:423-489 | Reading the written records into an empty map gives the fold of the records as a reader sees them; records whose keys have become equal are merged, the last winning |
| `MapFields.RebuiltUnchanged` | extracted/js/map.js:423-489 | That is the original map if and only if the keys and values of all records are faithful |
| `MapFields.CopyThroughWire` | extracted/js/map.js:423-489 | A real map written by a real writer and read into a new map: the copy is the fold of the records as seen, and equals the original if and only if every record is faithful |
| `Compare.SameExactly` | extracted/js/message.js:1397-1469 | Comparison is equality of normal forms whatever JavaScript converts if and only if the values are settled: when they are the same up to kinds of values, they are the same |
| `Compare.SameAlike` | extracted/js/message.js:1397-1469 | Whatever compares equal is the same up to kinds, and with the most generous conversion everything that is the same up to kinds compares equal |
| `Compare.SameAndNormal` | extracted/js/message.js:1397-1469 | Equal normal forms compare equal on all data: null is absent, trailing nulls are dropped, a missing extension object is empty |
| `Compare.SameIsNormal` | extracted/js/message.js:1397-1469 | On data of one message type the comparison holds exactly when the normal forms are equal |
| `Compare.CompatibleSettled` | extracted/js/message.js:1397-1469 | Data of one message type is settled |
| `Compare.SameEquivalence` | extracted/js/message.js:1397-1469 | On settled data the comparison is reflexive, symmetric and transitive |
| `Compare.CoercionBreaks` | extracted/js/message.js:1397-1469 | With the conversions of `==` to decimal integers, and whatever the other ones are, the text "1" equals the number 1 and that the text "01", but the two texts differ |
| `Compare.CompareFields` | extracted/js/message.js:1397-1469 | The method decides the comparison on every well-formed input |
| `Compare.CompareArrays` | extracted/js/message.js:1425-1460 | The array case, extension objects compared apart |
| `Compare.CompareExtensions` | extracted/js/message.js:1371-1388 | Extension objects are compared key by key in both directions |
| `Compare.CloneCompares` | extracted/js/message.js:1559-1582 | A clone always compares equal to its source |
| `Compare.ClonedNormal` | extracted/js/message.js:1559-1582 | Cloning keeps the normal form |
| `Compare.Clone` | extracted/js/message.js:1559-1582 | The method builds that clone |
| `Paths.SameByPaths` | extracted/js/message.js:1397-1469 | On data of one message type the comparison holds exactly when along every path of positions and properties the same is seen: the same scalar, an array, an object, or nothing |
| `Paths.NormalByPaths` | extracted/js/message.js:1397-1469 | Normal forms are equal exactly when along every path the same is seen, on all data |
| `Paths.CloneHolds` | extracted/js/message.js:1559-1582 | Along every path a clone has the same scalar, an array of the same length, an object with the properties that are not null, and a hole for null |
| `Messages.Message.constructor` | extracted/js/message.js:341-382 | Initialisation over any proper array keeps every field outside repeated fields and unions, makes absent repeated fields new empty lists, keeps the last set member of every union and no other, and keeps the message id in element 0 |
| `Messages.Reinitialise` | extracted/js/message.js:341-382 | Initialising again from a message's own array leaves every field of both unchanged; the first message stays valid with its wrappers, and both share one extension object |
| `Messages.Message.FieldStored` | extracted/js/message.js:321-323 | Field f is element f - 1 when the message id is 0 and element f otherwise, below the pivot; from it on a property |
| `Messages.Message.PivotStored` | extracted/js/message.js:420-449 | With an extension object last among n elements the pivot is n when the message id is 0 and n - 1 otherwise; without one it is the suggested pivot |
| `Messages.Message.FieldOfData` | extracted/js/message.js:420-449 | What a message shows at a field is determined by its array alone: the slot below the pivot, the extension object from it on |
| `Messages.Message.MaybeInitEmptyExtensionObject` | extracted/js/message.js:457-462 | Creating the extension object changes no field |
| `Messages.Message.SetField` | extracted/js/message.js:882-889 | Sets one field and no other: element f - 1 when the message id is 0 and element f otherwise, filling with holes, and a property from the pivot on; the id in element 0 stays |
| `Messages.Message.InitRepeatedFields` | extracted/js/message.js:356-374 | Absent repeated fields become new empty lists, all others are kept, and the id stays |
| `Messages.Message.ComputeOneofCase` | extracted/js/message.js:948-970 | The last non-null member stays, all others are cleared, nothing else changes |
| `Messages.Message.InitUnions` | extracted/js/message.js:376-381 | Of the members of a union that are set the last one stays and all others become undefined; nothing else changes |
| `Messages.Message.SetPlainField` | extracted/js/message.js:882-889 | Keeps unions, repeated fields and all wrappers linked |
| `Messages.Message.SetOneofField` | extracted/js/message.js:919-928 | Sets one member of a union; the other members are cleared together with their wrappers, exactly when the value is defined |
| `Messages.Message.SetOneofScalarField` | extracted/js/message.js:919-928 | Keeps the whole invariant, and no other member of the union is left |
| `Messages.Message.GetWrapperField` | extracted/js/message.js:982-996 | The wrapper returned is linked: its array is the value stored at the field; no field changes; null exactly when nothing is there; the same wrapper again on the next call |
| `Messages.Message.SetWrapperField` | extracted/js/message.js:1046-1053 | Field and wrapper are set together and stay linked |
| `Messages.Message.SetOneofWrapperField` | extracted/js/message.js:1064-1071 | The same within a union, whose other members are cleared |
| `Messages.Message.SetRepeatedWrapperField` | extracted/js/message.js:1081-1091 | The list of wrappers and the stored list of arrays are set together and stay linked |
| `Messages.Message.WrapRepeatedField` | extracted/js/message.js:1024-1035 | First use wraps every stored array; later uses change nothing; no field changes |
| `Messages.Message.AddToRepeatedWrapperField` | extracted/js/message.js:1116-1133 | The wrapper and its array are inserted at the same place in both lists |
| `Messages.Message.StillLinked` | extracted/js/message.js:1046-1091 | Setting one field and its wrapper consistently keeps every other live wrapper linked to what is stored |
| `TextSpacing.ParsePrinted` | extracted/python/google/protobuf/text_format.py:450-493 | Parsing the text printed for any fitting message gives the message back, for all choices of one line, pointy brackets, index order, field numbers (if allowed to the parser) and UTF-8 |
| `TextSpacing.NumbersNeedPermission` | extracted/python/google/protobuf/text_format.py:450-493 | The round trip holds if and only if field numbers are not printed or the parser allows them, or the message is empty |
| `TextSpacing.PrintedTokens` | extracted/python/google/protobuf/text_format.py:1302-1322 | The printed text, stripped or not, tokenises into exactly the tokens the printer meant |
| `TextSpacing.PrintAndParse` | extracted/python/google/protobuf/text_format.py:121-168 | The real printer followed by the real tokenizer and parser gives the message back |
| `TextRoundTrip.MessageBack` | extracted/python/google/protobuf/text_format.py:753-823 | The parser over the tokens of a message rebuilds it and stops behind its closing bracket |
| `TextRoundTrip.FieldsBack` | extracted/python/google/protobuf/text_format.py:615-627 | Fields in any listing order fill exactly their places, unions and maps included |
| `TextRoundTrip.FieldBack` | extracted/python/google/protobuf/text_format.py:629-736 | One printed field, scalar or message, is stored and nothing else |
| `TextRoundTrip.EntryBack` | extracted/python/google/protobuf/text_format.py:753-823 | One printed map entry is inserted under its key |
| `TextRoundTrip.ScalarBack` | extracted/python/google/protobuf/text_format.py:831-898 | Every scalar's text is parsed back, enum names and out-of-token neighbours included |
| `TextRoundTrip.NameBack` | extracted/python/google/protobuf/text_format.py:629-736 | The printed name, group type name or number finds its field again |
| `TextRoundTrip.ListOk` | extracted/python/google/protobuf/text_format.py:326-354 | Both orders list exactly the present fields, each once |
| `TextFormat.Printer.PrintMessage` | extracted/python/google/protobuf/text_format.py:326-354 | Appends the text of the message's pieces and restores the indentation |
| `TextFormat.Printer.PrintField` | extracted/python/google/protobuf/text_format.py:356-387 | Appends the text of one field |
| `TextFormat.Printer.PrintFieldValue` | extracted/python/google/protobuf/text_format.py:408-447 | Appends the text of one value |
| `TextFormat.Printer.OpenMessage` | extracted/python/google/protobuf/text_format.py:389-406 | Appends the opening bracket and indents |
| `Tokens.Tokenizer.NextToken` | extracted/python/google/protobuf/text_format.py:1302-1322 | Advances to the next token of the text |
| `Tokens.Tokenizer.TryConsume` | extracted/python/google/protobuf/text_format.py:1055-1067 | Consumes the expected token exactly when it comes next |
| `Tokens.Tokenizer.SkipWhitespace` | extracted/python/google/protobuf/text_format.py:1046-1053 | Skips white space and comments, which hold no tokens |
| `Tokens.StringToken` | extracted/python/google/protobuf/text_format.py:996-1001 | Escaped text between quotes is one string token, whatever follows |
| `TextParser.ConsumeByteString` | extracted/python/google/protobuf/text_format.py:1235-1247 | Adjacent string tokens are concatenated; each is unescaped |
| `TextParser.ConsumeSingleByteString` | extracted/python/google/protobuf/text_format.py:1249-1273 | A string token must be quoted and unescape |
| `TextParser.ConsumeScalar` | extracted/python/google/protobuf/text_format.py:831-898 | Consumes one scalar of the type asked for, range checks and errors included |
| `TextParser.Parser.ConsumeFieldStart` | extracted/python/google/protobuf/text_format.py:629-700 | Finds the field by name, group name or number, checks its union, and reads the colon |
| `TextParser.Parser.MergeField` | extracted/python/google/protobuf/text_format.py:629-736 | Equals the grammar on every token sequence, errors included |
| `TextParser.Parser.MergeFields` | extracted/python/google/protobuf/text_format.py:753-823 | Equals the grammar on every token sequence, errors included |
| `TextParser.Parser.Parse` | extracted/python/google/protobuf/text_format.py:615-627 | Equals the grammar on every text, errors included |
| `TextRoundTrip.UnionsKept` | extracted/python/google/protobuf/text_format.py:629-736 | Whatever text is parsed into or merged into whatever message, no union ends with two members set |
| `TextLaws.ShortIsLong` | extracted/python/google/protobuf/text_format.py:719-730 | For every repeated field, scalar, message or map, and values v1 to vn: `name: [v1, ..., vn]` is `name: v1 ... name: vn`, in front of any tokens, and unless the field is a map leaves the old elements followed by v1 to vn, in order |
| `TextLaws.ShortText` | extracted/python/google/protobuf/text_format.py:719-730 | The same for whole texts |
| `TextTables.NumberListRead` | extracted/python/google/protobuf/text_format.py:719-730 | The text `name: [n1, ..., nk]` appends the numbers |
| `TextLaws.TextBehindText` | extracted/python/google/protobuf/text_format.py:615-627 | Reading two texts one after the other is reading them as one text, whatever strings and comments the first one ends in |
| `TextLaws.LinesTokenised` | extracted/python/google/protobuf/text_format.py:1302-1322 | No token and no comment crosses the end of a line |
| `TextLaws.FieldsThen` | extracted/python/google/protobuf/text_format.py:615-627 | Fields up to the end of their tokens are read the same when more fields follow |
| `TextLaws.ScalarSet` | extracted/python/google/protobuf/text_format.py:873-898 | A scalar field is an error when the parser does not merge and the field or another member of its union is set; otherwise it has the value, and the other members are not set |
| `TextLaws.BlockSet` | extracted/python/google/protobuf/text_format.py:753-823 | A message field, with or without a colon and in brackets of either kind, is read into the message that is there; another member of its union is an error unless the parser merges |
| `TextLaws.BlocksMerge` | extracted/python/google/protobuf/text_format.py:753-823 | `name { A } name { B }` is `name { A B }` |
| `TextLaws.Rejected` | extracted/python/google/protobuf/text_format.py:686-712 | A name that is no field, a scalar without a colon and a block without its end are errors |
| `TextLaws.FieldNamed` | extracted/python/google/protobuf/text_format.py:655-685 | Exactly the fields of the type are found: by name, a group by its type's name, and by number when that is allowed |
| `TextLaws.EntryInserted` | extracted/python/google/protobuf/text_format.py:815-822 | Setting a map key replaces its entry or adds one, keeps the entries sorted and changes no other |
| `TextTables.ScalarPrinted` | extracted/python/google/protobuf/text_format.py:356-448 | A scalar is printed as indentation, name, colon, its text, and a line end or a space |
| `TextTables.MessagePrinted` | extracted/python/google/protobuf/text_format.py:389-406 | A message is a block in brackets, two spaces deeper on lines of its own, or on one line |
| `TextTables.EntryPrinted` | extracted/python/google/protobuf/text_format.py:339-348 | A map entry is a block with a key and a value |
| `TextTables.FieldOrder` | extracted/python/google/protobuf/text_format.py:336-354 | The set fields are printed by number or in the order of their declarations |
| `TextTables.ValuesPrinted` | extracted/python/google/protobuf/text_format.py:349-351 | The values of a repeated field come in their order, each like a field of its own |
| `TextTables.IntegersFit` | extracted/python/google/protobuf/text_format.py:1434-1455 | The decimal text of an integer is accepted exactly in the range of its type |
| `TextLaws.EnumRead` | extracted/python/google/protobuf/text_format.py:1535-1563 | An enum is read by any of its names and by any number that has a name, and by nothing else |
| `TextTables.StringsRead` | extracted/python/google/protobuf/text_format.py:1220-1273 | String tokens one after another are one value, the bytes that their characters and escapes denote; in a text field these must be valid UTF-8 |
| `TextTables.PrefixedNumeral` | extracted/python/google/protobuf/text_format.py:1457-1481 | Hexadecimal, octal and binary literals denote the number of their digits, with a sign in front |
| `TextTables.DecimalNumeral` | extracted/python/google/protobuf/text_format.py:1457-1481 | Decimal literals do not start with a zero, unless they are zeros only |
| `TextTables.NameToken` | extracted/python/google/protobuf/text_format.py:996-1001 | An identifier is one token as far as it goes |
| `TextTables.NumberToken` | extracted/python/google/protobuf/text_format.py:996-1001 | And so is a number |
| `TextTables.QuotedToken` | extracted/python/google/protobuf/text_format.py:996-1001 | Text between two quotes of either kind is one token |
| `Escapes.UnescapeUnits` | extracted/python/google/protobuf/text_encoding.py:82-107 | Every text of characters and escapes (simple, octal of up to three digits, hexadecimal of one or two, `\u`, `\U`, a backslash before a line end or any other character) is read as the bytes that these denote, single hexadecimal digits included |
| `Escapes.EscapedUnits` | extracted/python/google/protobuf/text_encoding.py:59-79 | The text written for any bytes is their units one after another: six bytes have escapes of their own, others three octal digits or themselves |
| `Escapes.EscapedPrintable` | extracted/python/google/protobuf/text_encoding.py:59-79 | Unless the text is UTF-8, only printable ASCII is written |
| `TextEscape.UnescapeEscape` | extracted/python/google/protobuf/text_encoding.py:59-107 | `CUnescape` undoes `CEscape` for every byte string in both modes |
| `TextEscape.EvenBeforeX` | extracted/python/google/protobuf/text_encoding.py:82-107 | In escaped text no run of backslashes before an `x` has odd length |
| `TextEscape.FixHexIdle` | extracted/python/google/protobuf/text_encoding.py:87-107 | So the hex fix-up leaves escaped text alone |
| `TextEscape.DecodeText` | extracted/python/google/protobuf/text_encoding.py:59-107 | Decoding the escapes gives the bytes back |

## Left out

- Reader and writer methods that repeat a wire kind already modelled (`readSint64`, `writePackedFixed64`, `readBool`, ...): they would add easy members only.
- Floating-point fields: the split and join functions rest on `Math.log` and rounding; a float field is carried as its 32- or 64-bit word.
- Utils.JoinInt64: returns the exact integer, where a JavaScript number rounds above 2^53.
- Utils.JoinZigzag64: the same.
- Decoder.BinaryDecoder.ReadSignedVarint64: the same; `readEnum` uses it for 32-bit values, where nothing is rounded.
- `splitInt64` and its siblings take exact integers of any size; the string forms of zigzag-64 are documented as lossy and left out.
- Null arguments of the writers, which return at once: a field tree has no such field. An empty packed array, which writes nothing, is covered by the two packed writers but is not a field of a tree.
- State after a failed assertion: an error ends the run, and what the fields hold then is not stated.
- Reader.BinaryReader.DeserializeFields: a skip whose length is negative after sign extension can move the cursor back and make the original loop without end; the model gives the error `NoProgress` when a field's reading does not move forward.
- Reader.BinaryReader.SkipMatchingFields: the same.
- MapFields.ReadMapMessage: the same.
- Instance pools, read callbacks, base64 input and debug printing: no protocol behaviour of their own. A byte array is a value, so a caller who changes an array after handing it over is not modelled.
- Transmission.WholeMessage: an unknown group must hold varint fields and groups whose numbers balance. What happens to unknown groups with fixed-width or delimited fields depends on how the bytes of their payloads read as headers; `Skipping.SkipGroupExact` decides it for given bytes, but the encoding of such fields is not followed through.
- `UtilsDecimal.Emit` divides integers where the original divides numbers and takes the integer part.
- Maps with message values, iteration, `forEach`, `has` and map fields inside messages: the views there add nothing to the agreement of hash map and array. Keys are numbers or strings and own properties only; `serializeBinary` on a map of messages is left out with them.
- `deserializeBinary` of a map, as the original, does not skip unknown fields in an entry.
- `MINIMIZE_MEMORY_ALLOCATIONS` is off, so repeated fields get fresh lists; extensions, `copyInto`, `toObject` and serialisation of messages are not part of this model.
- `getWrapperField` with `opt_required`: it makes a wrapper that is not linked into the array.
- Messages.Message.GetWrapperField: requires that a stored array about to be wrapped is well formed and shared with no other view; the original does not check it.
- Messages.Message.WrapRepeatedField: the same requirement for each stored array.
- Messages.Message.AddToRepeatedWrapperField: the same, and a field that is not in a union.
- `Compare` works on values: the shortcut for identical objects is left out (by reflexivity it changes nothing), and that a clone shares nothing with its source is not stated. The extension object is last, as the original asserts; NaN does not occur.
- Text format messages are values, namely what `ListFields` shows, and strings are given by their UTF-8 bytes; proto2 presence and closed enums.
- `Any` expansion, MessageSet, extensions, custom formatters, float text, unknown extensions, unknown fields and error positions of the text format.
- TextParser.ConsumeScalar: underscores in integer literals and digits outside ASCII, which Python's `int` takes, are errors.
- TextParser.Parser.ConsumeFieldStart: a field number is read from ASCII digits only, where Python's `isdigit` knows more, and extension names in brackets are errors.
- `CUnescape` does not decode `\N{...}` escapes, and a character from 256 on is an error like any other, where the original raises an index error.
- A message value that repeats a map key in parsed text replaces the earlier value instead of being merged into it.
- The tokenizer reads one text with line feeds where the original reads a list of lines.
