# A model of nanopb 0.3.9.6

The application vendors nanopb, a table-driven Protocol Buffers encoder and decoder in C
(`ios/Pods/nanopb`), and the Protocol Buffers runtime for Objective-C. This project models the encoder,
the decoder and the field iterator of the former, with the exceptions listed at the end, and of the latter the
ZigZag functions, which do the same job in another way.

* `Platform`, `Bits`: the widths the C sources leave to the platform (size_t, pb_size_t,
  uint_fast8_t, pointers, PB_SIZE_MAX) as constants that only their types constrain, so that every theorem
  holds for all of them; binary numbers with or, exclusive or and shifts.
* `Varint`, `ZigZag`: the scalar codecs, each in its two or three implementations.
* `Descriptor`, `FieldIter`: field tables, the structs they describe, what of a struct can be
  looked at, and the circular cursor with its incremental addresses.
* `Encoding`, `OutStream`, `Guards`, `Encoder`, `Cost`: the bytes of a message as a function; streams that
  write to a window of memory or only count; where a sum in size_t may wrap; the routines of pb_encode.c against
  that function; how often the two passes visit a field.
* `Decoding`, `InStream`, `RequiredBits`, `Decoder`: the effect of a byte string on a struct as a
  function; the routines of pb_decode.c against that function.
* `Locality`, `Typing`, `Merging`, `LastWins`, `RoundTrip`, `Looks`, `Exactness`, `Bounds`, `Acceptance`, `Packing`:
  what these functions promise together.
* `WireFormat`, `Elision`, `Resetting`: what they do in terms of bytes, numbers and fields: the grammar of records
  and scalars, which proto3 fields are left out, what a reset struct holds.
* `Heap`, `Releasing`, `HeapDefaults`, `HeapDecoding`, `PointerArrays`, `HeapDecoder`: fields behind pointers
  (PB_ENABLE_MALLOC), an allocator in which any request may fail, what is decoded, and who owns which block.
  Messages behind pointers name a table of the program, so tables may lead back to themselves.
* `PlainTables`, `HeapLaws`: without pointers, the two specifications of the decoder are one; with them, the laws of
  `Merging`, `LastWins` and `Packing` hold as well.
* `HeapEncoding`, `HeapRoundTrip`: the bytes of a struct with pointers, and the round trip for those.

A struct is a sequence of slots, one for each row of its table; the members of a union share one. A
stream or cursor is an object whose methods change it, as in C. Two messages look the same
(`SeenMessage`, spelled out by `Looks.LooksExactly`) when they differ only in what generated code may not look at:
a value whose has flag is false, array items past the count, string bytes past the terminator, union members other
than the one selected, and which nonzero byte stands for true. A valid message (`StorableMessage`) has counts within
its arrays, terminators within its strings, a union tag that is zero or a member's, and embedded
messages and packed arrays shorter than 2^32 bytes, which is what the decoder's length prefix allows; these are
exactly the messages that come back (`Exactness.ReturnsExactly`).

Where the code and its comments or the wire format's description disagree, the model follows the code:

* A repeated record for a message in a union starts from a cleared struct (pb_decode.c:466-475),
  although the comment at pb_decode.c:1137 speaks of merging (`Merging.UnionMessageIsReplaced`). A message
  behind a pointer is likewise released and read anew (pb_decode.c:568-573, `HeapRoundTrip.HeapRecordStores`).
* Only the first 64 required fields are tracked, in table order.
* The wire type of a record is looked at only to tell packed from single elements (`LastWins.WireTypeIgnored`).
* Where size_t has 16 bits, the length of a string that is skipped is cut to it (`InStream.LongStringSkipped`).
* The guard of pb_encode_submessage against a full stream does not look for a wrapped sum
  (`Encoder.BodyGuardPassesTooMuch`).
* A fixed-count array must be received in one go: starting another one before it is full is an error.
* Bytes shorter than their storage are refused for fixed-length bytes, except that no bytes mean zeros.

Tables are well formed (`WellFormed`, `Allocatable`) when tags are distinct and between 1 and
2^29 - 1, sizes fit in pb_size_t, scalar types have one of their storage sizes, and proto3 fields have no
default of their own. unsigned int is assumed to have 32 bits at least where pb_encode_negative_varint shifts in it.

## Model

| member | source | states |
|---|---|---|
| RoundTrip.DecodeUndoesEncode | ios/Pods/nanopb/pb_encode.c:240-550 | pb_decode of what pb_encode emits succeeds, consumes all of it and gives a message that looks the same, for every static table and every valid message (nested messages, packed, unpacked and fixed-count arrays, unions, elided defaults), whatever the receiving struct held before |
| RoundTrip.MessageRoundTrip | ios/Pods/nanopb/pb_decode.c:925-1073 | the same for pb_decode_noinit into any struct that is at its defaults; the encoder cannot fail on such a message |
| RoundTrip.EncodingIsInjective | ios/Pods/nanopb/pb_encode.c:528-550 | two valid messages with the same encoding cannot be told apart by anything the generated code may look at |
| RoundTrip.RowsRoundTrip | ios/Pods/nanopb/pb_decode.c:943-1021 | after the first k rows of the encoding the decoder has taken back exactly those rows and left every other slot at its default |
| RoundTrip.ValueRoundTrip | ios/Pods/nanopb/pb_decode.c:1318-1548 | each decoder undoes the encoder of its type with any bytes following, submessages included |
| RoundTrip.ScalarRoundTrip | ios/Pods/nanopb/pb_encode.c:769-850 | every number of the field's storage type comes back from its wire form (bools as 0 or 1) |
| RoundTrip.DelimitedRoundTrip | ios/Pods/nanopb/pb_decode.c:372-400 | a length-delimited payload comes back exactly when its length is below 2^32, and is refused otherwise |
| RoundTrip.StringRoundTrip | ios/Pods/nanopb/pb_decode.c:1468-1501 | a string buffer comes back exactly when it holds a terminator |
| RoundTrip.BlobRoundTrip | ios/Pods/nanopb/pb_decode.c:1431-1548 | bytes, strings and fixed-length bytes are stored again exactly when the value is one the generated code may hold |
| RoundTrip.PackedRoundTrip | ios/Pods/nanopb/pb_decode.c:424-453 | a packed array is appended to what is there exactly when it fits the array; otherwise it is refused |
| RoundTrip.UnpackedRoundTrip | ios/Pods/nanopb/pb_decode.c:454-464 | the records of an unpacked array are appended one by one, in order |
| RoundTrip.ElidedMessage | ios/Pods/nanopb/pb_encode.c:240-337 | a message that pb_check_proto3_default_value takes for zero looks like a struct at its defaults, so eliding it loses nothing |
| RoundTrip.TagRoundTrip | ios/Pods/nanopb/pb_decode.c:298-319 | a tag and wire type come back from pb_encode_tag |
| Looks.LooksExactly | ios/Pods/nanopb/pb_decode.c:925-1073 | two messages look the same if and only if, row by row, they are equally present and counted and hold the same union member, and the values of those are equal: numbers (truth values for bools), bytes, strings up to the terminator, messages in turn |
| Looks.ComesBackAlike | ios/Pods/nanopb/pb_encode.c:240-550 | so what pb_decode makes of what pb_encode emits is alike in every row |
| WireFormat.RowRecords | ios/Pods/nanopb/pb_encode.c:147-236 | what a row emits: one record of its tag if it is present; for an array one record of wire type 2 if its elements can be packed and a record per element otherwise, and none if it is empty; with wire type 0 for bools and integers, 1 for 64-bit and 5 for 32-bit fixed numbers, 2 for the rest |
| WireFormat.RecordBegins | ios/Pods/nanopb/pb_encode.c:669-707 | a record begins with eight times the tag plus its wire type, as one byte for tags below 16 and as the low seven bits of that otherwise |
| WireFormat.ValuePayload | ios/Pods/nanopb/pb_encode.c:769-912 | what an encoder of the table emits is, for wire type 0, a varint, for 1 eight bytes, for 2 a length and that many bytes, for 5 four bytes |
| WireFormat.SkipExactly | ios/Pods/nanopb/pb_decode.c:321-331 | a field is skipped exactly over such a payload, and wire types 3, 4, 6 and 7 are refused (lengths that size_t cannot hold aside, see InStream.SkipStringExact) |
| WireFormat.VarintDigits | ios/Pods/nanopb/pb_encode.c:608-628 | the bytes of a varint are the groups of seven bits of the number, the lowest first, all but the last with the top bit set |
| WireFormat.VarintRead | ios/Pods/nanopb/pb_decode.c:255-275 | any varint of up to ten bytes is read as the number its groups spell, mod 2^64, and a longer one is refused |
| WireFormat.NoVarint | ios/Pods/nanopb/pb_decode.c:255-275 | only bytes with such a varint at their front are accepted |
| WireFormat.Varint32Read | ios/Pods/nanopb/pb_decode.c:187-247 | the 32-bit decoder accepts any varint of up to four bytes, of five if the last is below 16, and of more exactly if the bytes from the sixth on add no bits or extend the sign of the low 32; the value is that of the 64-bit decoder mod 2^32 |
| WireFormat.IntegerBytes | ios/Pods/nanopb/pb_encode.c:769-833 | a signed number is sent as the varint of its 64-bit two's complement, an unsigned one as its own, a zigzag one as 2n or -2n - 1, a bool as the byte 0 or 1 |
| WireFormat.TenBytes | ios/Pods/nanopb/pb_encode.c:776-797 | the 64-bit two's complement of a negative number takes ten bytes |
| WireFormat.IntegerRead | ios/Pods/nanopb/pb_decode.c:1329-1412 | for any 64-bit varint what each integer type of each size stores, and which it refuses: signed fields of up to 32 bits go by the low 32 bits |
| WireFormat.FiveByteNegatives | ios/Pods/nanopb/pb_decode.c:1336-1345 | a negative int32 is read from five bytes as from ten |
| WireFormat.BoolRead | ios/Pods/nanopb/pb_decode.c:1318-1327 | any varint but zero is true, and stored as 1 |
| WireFormat.FixedBytes | ios/Pods/nanopb/pb_encode.c:641-667 | byte i of a fixed-width number is its i-th digit to base 256 |
| WireFormat.FixedRead | ios/Pods/nanopb/pb_decode.c:1283-1316 | four or eight bytes are read with the first counting least, fewer are refused |
| WireFormat.BlobSent | ios/Pods/nanopb/pb_encode.c:852-912 | bytes and strings are sent as a length and that many bytes, a string up to its first NUL or the end of its buffer; bytes that do not fit behind the size field are refused |
| WireFormat.BlobRead | ios/Pods/nanopb/pb_decode.c:1431-1548 | for any payload: bytes are stored as they are if they fit behind the size field, a string with a NUL after it if both fit, fixed-length bytes if they have that length and no bytes as zeros; otherwise refused, whatever was there |
| Elision.ElidedExactly | ios/Pods/nanopb/pb_encode.c:240-337 | a singular proto3 field is left out if and only if it is zero: a number 0, no bytes, a string that begins with NUL or has no room, fixed-length bytes of length zero, a message whose rows are all absent, empty or zero in turn; otherwise its record is sent |
| Elision.ElidedWithoutBytes | ios/Pods/nanopb/pb_encode.c:288-308 | an embedded proto3 message is left out if and only if its own encoding has no bytes, given that its unions hold a member or none and no array of fixed count has count zero |
| Merging.MergeHomomorphism | ios/Pods/nanopb/pb_decode.c:925-1021 | without fixed-count arrays, decoding a + b is decoding a and then b into the result, the required fields met in either part counting together; the place where the cursor stood between them does not matter |
| Merging.DecodeConcat | ios/Pods/nanopb/pb_decode.c:925-1073 | if m decodes a to m1 and m1 decodes b to m2, m decodes a + b to m2; and a + b is accepted exactly when b runs through and both parts together have the required fields |
| Merging.UnknownIsTransparent | ios/Pods/nanopb/pb_decode.c:957-986 | a well-formed record with a tag the table does not have, at any record boundary, changes neither the verdict nor the struct nor what is left unread |
| Merging.UnknownTagMakesOne | ios/Pods/nanopb/pb_decode.c:957-986 | every tag outside the table, zero with a nonzero wire type included, makes such a record with exactly the payloads of its wire type: a varint, eight bytes, a length and that many bytes, four bytes, none for 3, 4, 6 and 7 |
| Merging.StrayRecord | ios/Pods/nanopb/pb_decode.c:957-1021 | only in an empty table is the tag zero taken for a field, and a varint read whatever its wire type |
| Merging.ZeroByteEnds | ios/Pods/nanopb/pb_decode.c:308-312 | a zero byte between two records ends the message: same verdict and struct as without it, and nothing after it is read |
| LastWins.RecordStores | ios/Pods/nanopb/pb_decode.c:406-422 | whatever the row of a required, optional or union field held and whatever wire type the tag claims, after its record it is present and shows the value, and nothing else has changed but the mark of a required row |
| LastWins.LastOneWins | ios/Pods/nanopb/pb_decode.c:406-475 | of two records for one field, or for two members of one union, only the last counts |
| LastWins.WireTypeIgnored | ios/Pods/nanopb/pb_decode.c:424-426 | the wire type of a record is looked at only to tell packed elements |
| LastWins.EmbeddedMerges | ios/Pods/nanopb/pb_decode.c:1503-1525 | two records of an embedded message do what one record with both bodies does, where both are accepted; and if nothing in it is required, wherever the first body runs to its end (tables without fixed-count arrays) |
| LastWins.UnionKeepsLast | ios/Pods/nanopb/pb_decode.c:466-475 | a record for one member of a union, accepted, leaves no trace once a record for a member follows, messages included |
| LastWins.FixedItem | ios/Pods/nanopb/pb_decode.c:988-1010 | an item of a fixed-count array is refused if another such array is incomplete or this one is full, and otherwise stored behind those counted so far, which are none if another array came in between |
| LastWins.OtherArrayRefused | ios/Pods/nanopb/pb_decode.c:993-1003 | while one fixed-count array is incomplete, every record of another is refused |
| Merging.UnionMessageIsReplaced | ios/Pods/nanopb/pb_decode.c:466-475 | a message in a union is not merged into what the union held, even if that was the same member |
| Merging.FullArrayRefusesMore | ios/Pods/nanopb/pb_decode.c:988-1010 | a full fixed-count array refuses every further element, whatever the record: the reason why such tables are outside the merge law |
| Merging.LoopUncounted | ios/Pods/nanopb/pb_decode.c:988-1010 | without fixed-count arrays no decoder state besides the struct and the required marks passes from record to record |
| Locality.LoopConcat | ios/Pods/nanopb/pb_decode.c:943-1021 | the loop on a + b is the loop on a followed by the loop on b from the state a left, for every table |
| Locality.TurnLocal | ios/Pods/nanopb/pb_decode.c:943-1021 | what one turn of the loop does with a record does not depend on the bytes after it |
| Typing.NoInitTyped | ios/Pods/nanopb/pb_decode.c:925-1073 | whatever bytes arrive, a successful pb_decode_noinit leaves every slot of its type, at every depth: numbers within their storage type, buffers and arrays of their sizes, structs laid out as their tables say |
| Bounds.AcceptedInBounds | ios/Pods/nanopb/pb_decode.c:1075-1087 | whatever bytes pb_decode accepts, in the struct no count exceeds its array, no bytes value its field, every string has its terminator in the buffer, and a union tag is zero or a member's, at every depth; for tables in which each field has room for an empty value and for its default; items of fixed-count arrays by AcceptedFixed |
| Bounds.AcceptedFixed | ios/Pods/nanopb/pb_decode.c:1075-1087 | if the items of fixed-count arrays were within bounds before, at every depth, they are so afterwards |
| Bounds.ZeroSlotsInBounds | ios/Pods/nanopb/pb_decode.c:466-475 | cleared storage is within bounds, fixed-count arrays included |
| Bounds.NoInitInBounds | ios/Pods/nanopb/pb_decode.c:925-1073 | pb_decode_noinit keeps a struct within these bounds, fixed-count arrays aside |
| Bounds.NoInitFixed | ios/Pods/nanopb/pb_decode.c:925-1073 | pb_decode_noinit leaves a fixed-count array untouched or stores items within bounds |
| Bounds.RoomyExactly | ios/Pods/nanopb/pb_decode.c:877-895 | that a field has the room is what it takes for its default to be within bounds |
| Exactness.ReturnsExactly | ios/Pods/nanopb/pb_decode.c:925-1073 | a typed message whose encoding has less than 2^63 bytes comes back, accepted, read to the end and looking the same, if and only if it is valid |
| Exactness.MessageReturns | ios/Pods/nanopb/pb_decode.c:925-1073 | the converse of the round trip: what comes back looking the same was valid, in every embedded message and every item |
| Exactness.ValueReturns | ios/Pods/nanopb/pb_decode.c:1318-1548 | a value that comes back looking the same is one the decoder can store |
| Exactness.ValueEnds | ios/Pods/nanopb/pb_decode.c:372-400 | an encoded value is read to its end and no further, whether it is accepted or not and whatever follows |
| Acceptance.AcceptedReturns | ios/Pods/nanopb/pb_decode.c:1075-1087 | what pb_decode accepts, from any bytes, into a struct whose fixed-count arrays are within bounds, can be encoded without condition, and comes back from that looking the same if and only if its embedded messages and packed arrays are shorter than 2^32 |
| Acceptance.AcceptedFromZero | ios/Pods/nanopb/pb_decode.c:1075-1087 | in particular into a struct that was cleared |
| Acceptance.AcceptedFromAnything | ios/Pods/nanopb/pb_decode.c:1075-1087 | into any struct: the message can be encoded if and only if its bytes fit and its counts lie within their arrays, and comes back if and only if, in addition, fixed-count arrays hold what the decoder would store and the lengths are below 2^32 |
| Acceptance.AcceptedNotEncodable | ios/Pods/nanopb/pb_encode.c:852-873 | an input for which the decoder accepts and the encoder refuses: no bytes, and 200 bytes left in a 10-byte item of a fixed-count array |
| Acceptance.MessageEncodes | ios/Pods/nanopb/pb_encode.c:528-550 | a typed message is encoded if and only if no count exceeds its array and the bytes that are sent fit their fields, at every depth |
| Acceptance.ValueEncodes | ios/Pods/nanopb/pb_encode.c:769-912 | a typed value is encoded if and only if its bytes fit |
| Acceptance.MessageStorable | ios/Pods/nanopb/pb_decode.c:925-1073 | a message within bounds is valid exactly when its fixed-count arrays hold what the decoder would store and its lengths are below 2^32 |
| Acceptance.MessageShortens | ios/Pods/nanopb/pb_decode.c:925-1073 | with fixed-count arrays within bounds too, exactly when its lengths are below 2^32 |
| Packing.SplitDoesNotMatter | ios/Pods/nanopb/pb_decode.c:424-464 | any split of a sequence of scalars into packed and single records is appended in order, and is refused exactly when the total exceeds array_size |
| Packing.SplitsAgree | ios/Pods/nanopb/pb_decode.c:424-464 | two splits of one sequence have the same outcome |
| Packing.FixedCountExactly | ios/Pods/nanopb/pb_decode.c:1023-1028 | records of a fixed-count array, however split, make an accepted message if and only if there are none or they have all of its elements |
| RequiredBits.RequiredCheckIsExact | ios/Pods/nanopb/pb_decode.c:1012-1070 | once the records have been read, decoding succeeds exactly if each of the first 64 required fields in table order was met on the wire |
| RequiredBits.SeenIsMet | ios/Pods/nanopb/pb_decode.c:1012-1017 | the rows marked by a run are the required rows whose tag stood at some record boundary |
| RequiredBits.CheckRequired | ios/Pods/nanopb/pb_decode.c:1030-1070 | the recount from wherever the cursor stands, the word loop and the partial-word mask pass exactly when every tracked required field was marked |
| RequiredBits.CheckWords | ios/Pods/nanopb/pb_decode.c:1053-1068 | whole words and then the rest of the last one: passes exactly when the first count ranks were marked |
| RequiredBits.CountAll | ios/Pods/nanopb/pb_decode.c:1032-1046 | the number of required fields of the whole table, whatever row the cursor stood on |
| RequiredBits.MarkSeen | ios/Pods/nanopb/pb_decode.c:1012-1017 | sets the bit of this field's rank and no other; ranks from 64 on are not tracked |
| RequiredBits.RequiredMetByRank | ios/Pods/nanopb/pb_decode.c:1030-1070 | the rows with rank below 64 have been met exactly when the ranks below min(count, 64) have |
| RequiredBits.RankCounts | ios/Pods/nanopb/pb_common.c:20-76 | the rank of a row is the number of required rows before it |
| HeapDecoder.Decode | ios/Pods/nanopb/pb_decode.c:1075-1087 | verdict and contents are those of HeapDecoding.Read, unless a denial was recorded during the call, for a request it made and the allocator did not grant or for a block of a field of the table that size_t cannot express; so with an allocator that grants everything and blocks that all have a size it succeeds if and only if Read does. Success adds exactly the blocks the struct owns to the live ones; failure leaves the live blocks as they were, with a struct that owns nothing and that another pb_release would not change (tables without unions, extensions, callbacks and static arrays of messages, recursive ones included) |
| HeapDecoder.DecodeNoInit | ios/Pods/nanopb/pb_decode.c:925-1073 | verdict and contents are those of HeapDecoding.ReadNoInit unless a denial was recorded during the call; on every path the blocks the struct gained were allocated, those it lost were freed, and all others are untouched; the struct stays sound (tables without unions, extensions, callbacks and static arrays of messages, recursive ones included) |
| HeapDecoder.DecodeTurn | ios/Pods/nanopb/pb_decode.c:943-1021 | one record has the effect HeapDecoding.ReadTurn specifies, unless a denial was recorded during the call, and keeps the balance of blocks |
| HeapDecoder.DecodeRow | ios/Pods/nanopb/pb_decode.c:988-1021 | a record changes its own row only, as specified unless a denial was recorded, keeps the counter of fixed-count arrays and the required marks, and keeps the balance of blocks |
| HeapDecoder.DecodeField | ios/Pods/nanopb/pb_decode.c:731-757 | static storage and pointers: what the row holds afterwards, embedded messages included, and the balance of blocks; it fails as specified or with a denial on record |
| HeapDecoder.DecodeStaticField | ios/Pods/nanopb/pb_decode.c:406-480 | the static cases: what the row holds after success, and the balance of the blocks its message owns on every path; it fails as specified or with a denial on record |
| HeapDecoder.DecodeSinglePointer | ios/Pods/nanopb/pb_decode.c:565-592 | a duplicate message is released first, another value reuses its block; afterwards the pointer's block holds exactly the value or message read, and nothing of what was there; it fails as specified or with a denial on record |
| HeapDecoder.DecodePackedItems | ios/Pods/nanopb/pb_decode.c:595-652 | the array has grown by exactly the elements of the record, in order, earlier items kept; it fails exactly when an element is malformed or there are more than PB_SIZE_MAX, or with a denial on record; every store lies inside the last allocation |
| HeapDecoder.DecodeNextItem | ios/Pods/nanopb/pb_decode.c:653-669 | the array has grown by one item, a value or a message read from its defaults, earlier items kept; it fails as specified or with a denial on record |
| HeapDecoder.DecodeText | ios/Pods/nanopb/pb_decode.c:1431-1501 | the block of a string or bytes field is resized and holds the bytes read and the terminator; no block is lost, whether allocation or reading fails; it fails as specified or with a denial on record; when it succeeds, the request it made was granted with the room of the text, its terminator or size field included |
| HeapDecoder.DecodeSubmessage | ios/Pods/nanopb/pb_decode.c:1503-1525 | array entries are decoded by pb_decode, others merged, with the contents specified; the balance of blocks is kept although a failing entry has already released itself; it fails as specified or with a denial on record |
| PlainTables.SameDecode | ios/Pods/nanopb/pb_decode.c:1075-1087 | on a table without pointers the specification with pointers and the one without agree in verdict, struct and unread input, for all bytes |
| PlainTables.SameNoInit | ios/Pods/nanopb/pb_decode.c:925-1073 | the same for pb_decode_noinit |
| HeapLaws.SplitDoesNotMatterToHeap | ios/Pods/nanopb/pb_decode.c:594-669 | however a sequence of scalars is split into packed and single records, an array behind a pointer grows by them in order, and they are refused exactly when the total exceeds PB_SIZE_MAX |
| HeapLaws.ElementsRead | ios/Pods/nanopb/pb_decode.c:608-647 | the elements of a packed record are read back for an array of any size, and refused exactly when pb_size_t cannot count them |
| HeapLaws.UnknownIsTransparentToHeap | ios/Pods/nanopb/pb_decode.c:957-986 | an unknown record at any record boundary changes neither verdict nor struct nor rest, with fields behind pointers |
| HeapLaws.EmbeddedMergesInHeap | ios/Pods/nanopb/pb_decode.c:1503-1525 | two records of a message inside the struct merge here as well, with pointers in it |
| HeapRoundTrip.HeapDecodeUndoesEncode | ios/Pods/nanopb/pb_encode.c:138-550 | pb_decode of what pb_encode emits for a struct with pointers succeeds, consumes all of it and shows what was sent, for every such table, recursive ones included, whatever the receiving struct held: single and repeated pointers to numbers, strings, bytes and messages, static members and arrays |
| HeapRoundTrip.MessageReturns | ios/Pods/nanopb/pb_decode.c:925-1073 | the same for pb_decode_noinit into a struct that is at its defaults |
| HeapRoundTrip.ItemReturns | ios/Pods/nanopb/pb_decode.c:1318-1548 | each item comes back from its wire form with any bytes following, into storage that is reset or will be |
| HeapRoundTrip.TextBehindPointer | ios/Pods/nanopb/pb_decode.c:1431-1501 | for any payload: a string behind a pointer is the bytes and a NUL, a bytes field the bytes, in an allocation of exactly their size and that of the size field; refused if and only if pb_size_t or size_t cannot count that |
| HeapRoundTrip.TextStored | ios/Pods/nanopb/pb_decode.c:578-588 | the same for a single pointer and for a new entry of an array |
| HeapRoundTrip.HeapRecordStores | ios/Pods/nanopb/pb_decode.c:550-588 | whatever the row held, after its record a member of the struct shows what was sent and is present, and a pointer leads to a new block that does, messages not merged |
| HeapRoundTrip.UnpackedMany | ios/Pods/nanopb/pb_decode.c:454-464 | the values of an array in the struct are appended record by record |
| HeapRoundTrip.PointerMany | ios/Pods/nanopb/pb_decode.c:654-669 | the items of an array behind a pointer are appended record by record, each read into a new item |
| HeapRoundTrip.ElidedRows | ios/Pods/nanopb/pb_encode.c:240-337 | a message with pointers that is left out looks like a reset one |
| HeapLaws.HeapLoopConcat | ios/Pods/nanopb/pb_decode.c:943-1021 | the loop on a + b is the loop on a followed by the loop on b, for every table with pointers |
| HeapDecoding.BareDefaults | ios/Pods/nanopb/pb_decode.c:836-919 | resetting a struct does not depend on where its blocks lie |
| PointerArrays.GrowingDone | ios/Pods/nanopb/pb_decode.c:608-651 | the items gathered by the loop over a packed record are those of the specification |
| PointerArrays.GrowingStuck | ios/Pods/nanopb/pb_decode.c:608-645 | where the loop stops early the specification has nothing to read either |
| PointerArrays.GrownFits | ios/Pods/nanopb/pb_decode.c:619-628 | growing a full array makes room for at least one more item and stays within PB_SIZE_MAX |
| PointerArrays.MakeRoom | ios/Pods/nanopb/pb_decode.c:619-635 | before a store size < capacity <= PB_SIZE_MAX and the block has capacity items; nothing stored so far is lost |
| PointerArrays.ResizedArray | ios/Pods/nanopb/pb_decode.c:487-530 | resizing keeps the items in use and everything they own; the rest of the block owns nothing |
| Heap.AllocateField | ios/Pods/nanopb/pb_decode.c:487-530 | succeeds exactly when both sizes are nonzero, their product fits in size_t and the allocator grants it, and otherwise records why not; the old block is replaced or, on failure, kept |
| Heap.NothingDenied | ios/Pods/nanopb/pb_decode.c:487-530 | an allocator that grants everything has no denial to record where every block the table may ask for has a size |
| Heap.OverflowTestIsExact | ios/Pods/nanopb/pb_decode.c:504-519 | the half-width test lets a nonzero pair of sizes through exactly when their product fits in size_t |
| Heap.ReleasedTwice | ios/Pods/nanopb/pb_decode.c:1154-1259 | a released struct is sound, owns nothing and is not changed by releasing it again |
| Heap.ReleasedKeeps | ios/Pods/nanopb/pb_decode.c:1154-1259 | it has lost its pointers and the counts of arrays behind them, and nothing else |
| Heap.OwnsItsBlocks | ios/Pods/nanopb/pb_decode.c:1176-1243 | a struct owns the block behind each of its pointers, those of the texts in it, and all that messages in it own |
| Heap.Allocator.Realloc | ios/Pods/nanopb/pb_decode.c:521-529 | any request may be denied and then changes nothing but the record; a block that is granted is new, and replaces the one passed in |
| Heap.Allocator.Free | ios/Pods/nanopb/pb_decode.c:1239-1241 | only a live block or NULL may be freed |
| Releasing.Release | ios/Pods/nanopb/pb_decode.c:1245-1259 | pb_release frees each block the struct owns once and no other, and clears pointers and counts only (tables without unions, extensions, callbacks and static arrays of messages, recursive ones included) |
| Releasing.ReleaseRow | ios/Pods/nanopb/pb_decode.c:1154-1243 | the same for one field, contents before container |
| Releasing.ReleaseItems | ios/Pods/nanopb/pb_decode.c:1180-1215 | the messages of an array are released in turn |
| Releasing.FreeTexts | ios/Pods/nanopb/pb_decode.c:1219-1231 | every string of an array is freed |
| HeapDefaults.DefaultsSound | ios/Pods/nanopb/pb_decode.c:836-919 | a struct set to its defaults is sound and owns nothing, whatever garbage its pointers were before |
| HeapDefaults.InitializedSound | ios/Pods/nanopb/pb_decode.c:533-547 | a new item of a pointer field is sound and owns nothing before it is decoded into |
| Resetting.DefaultsReset | ios/Pods/nanopb/pb_decode.c:836-919 | after a reset every single field holds its own default, or zero, no bytes or zero bytes where it has none, messages row by row; it is not present, counts and union tags are zero; what arrays and unions held stays |
| Resetting.SettledExactly | ios/Pods/nanopb/pb_decode.c:836-919 | the structs that a reset leaves as they are are exactly those |
| Resetting.EmptyInput | ios/Pods/nanopb/pb_decode.c:1075-1087 | no bytes are accepted if and only if no field is required, and make such a struct |
| Resetting.MessageStarts | ios/Pods/nanopb/pb_decode.c:1503-1525 | the body of an array entry is read into a reset struct, that of any other message into what is there |
| Resetting.UnionMessageStarts | ios/Pods/nanopb/pb_decode.c:466-475 | that of a union member into a reset struct, and the union then holds that member |
| Resetting.DefaultRowsReset | ios/Pods/nanopb/pb_decode.c:836-906 | the same reset for structs with pointers, which become NULL, whatever they were |
| Resetting.InitializedResets | ios/Pods/nanopb/pb_decode.c:533-547 | a message behind a pointer starts as a reset one |
| Encoder.EncodeMessage | ios/Pods/nanopb/pb_encode.c:528-550 | pb_encode emits the specified bytes: a sizing stream counts them; on a buffer it succeeds exactly when the message can be encoded and fits the window, writes a prefix of them on failure and nothing outside, provided that the length of every packed array and every message it comes to can be counted in size_t, and for a message also bytes_written + size; so it leaves the window only if it comes to a message for which that sum wraps. The runs of encode_field on any watched field are those of Cost.Runs |
| Encoder.EncodeSubmessage | ios/Pods/nanopb/pb_encode.c:717-765 | sizing, length and body together emit the delimited message; the size never changes between the two passes, at any depth; on a buffer if the size and the sum the guard forms can be counted |
| Encoder.EncodeBody | ios/Pods/nanopb/pb_encode.c:740-764 | in a window of the announced size the body emits exactly that many bytes, if the sum the guard forms can be counted |
| Encoder.BodyGuardExact | ios/Pods/nanopb/pb_encode.c:740-741 | the guard before the body, which does not look for a wrapped sum, tells whether the body fits if and only if the sum can be counted in size_t |
| Encoder.BodyGuardPassesTooMuch | ios/Pods/nanopb/pb_encode.c:740-741 | with 100 bytes written of 1000 a body of SIZE_MAX - 50 bytes passes the guard |
| Guards.CountedMessage | ios/Pods/nanopb/pb_encode.c:717-765 | the proviso holds wherever the bytes so far and those to come can be counted together |
| Guards.PlainGuarded | ios/Pods/nanopb/pb_encode.c:103-124 | and always for fields that are neither messages nor packed, since pb_write finds a wrapped sum by itself |
| Encoder.EmitsExact | ios/Pods/nanopb/pb_encode.c:753-764 | an encodable message in a window of its exact size goes through and fills it, so the error for a changed size is unreachable |
| Encoder.GetEncodedSize | ios/Pods/nanopb/pb_encode.c:567-576 | fails exactly when the message cannot be encoded; the size is the number of bytes pb_encode emits, if size_t can hold it |
| Encoder.EncodeArray | ios/Pods/nanopb/pb_encode.c:147-236 | packed whenever the type allows, otherwise a record per item; too large a count is refused, an empty array emits nothing |
| Encoder.EncodePacked | ios/Pods/nanopb/pb_encode.c:163-205 | tag, size and items, with the same bytes on a sizing stream |
| Encoder.EncodeSized | ios/Pods/nanopb/pb_encode.c:191-204 | on a sizing stream the size stands for the items it was computed from |
| Encoder.PackedSize | ios/Pods/nanopb/pb_encode.c:169-189 | 4 * count, 8 * count or a sizing run: the number of bytes the items take |
| Encoder.FixedItems | ios/Pods/nanopb/pb_encode.c:170-177 | the shortcut for fixed-width items is exact |
| Encoder.EncodeBasicField | ios/Pods/nanopb/pb_encode.c:341-428 | presence, elided defaults and unions decide what the row emits |
| Encoder.EncodeRow | ios/Pods/nanopb/pb_encode.c:534-547 | one turn of the loop of pb_encode: the rows so far have been emitted, or encoding has failed for good |
| Encoder.CheckProto3Default | ios/Pods/nanopb/pb_encode.c:240-337 | true exactly when the row counts as empty, submessages looked into row by row |
| Encoder.CheckAllDefault | ios/Pods/nanopb/pb_encode.c:288-308 | true exactly when every row of the submessage counts as empty, found with the cursor |
| Encoder.CheckBytesZero | ios/Pods/nanopb/pb_encode.c:317-336 | true exactly when every byte of the storage is zero |
| RoundTrip.ZeroNumber | ios/Pods/nanopb/pb_encode.c:317-336 | a number whose bytes are all zero is zero |
| Encoder.EncodeValue | ios/Pods/nanopb/pb_encode.c:769-912 | every entry of the encoder table emits the specified bytes of its type or refuses |
| Encoder.EncodeRecords | ios/Pods/nanopb/pb_encode.c:209-232 | a tag with every item, in order |
| Encoder.EncodeItems | ios/Pods/nanopb/pb_encode.c:197-204 | the items of a packed array without tags, in order |
| Encoder.EncodeCString | ios/Pods/nanopb/pb_encode.c:875-899 | the bytes up to the terminator, which is not looked for beyond the buffer |
| Encoder.EncodeString | ios/Pods/nanopb/pb_encode.c:709-715 | length and bytes |
| Encoder.EncodeTag | ios/Pods/nanopb/pb_encode.c:669-673 | the varint of tag * 8 + wire type |
| Encoder.EncodeTagForField | ios/Pods/nanopb/pb_encode.c:675-707 | the wire type of the field's type; extensions are refused |
| Encoder.EncodeFixed32 | ios/Pods/nanopb/pb_encode.c:641-650 | four little-endian bytes |
| Encoder.EncodeFixed64 | ios/Pods/nanopb/pb_encode.c:653-667 | eight little-endian bytes |
| Cost.TwoPassCost | ios/Pods/nanopb/pb_encode.c:717-765 | encode_field runs once per field on a sizing stream and d + 1 times on a writing one for a field d messages deep, and never for a field that is not sent |
| OutStream.Stream.Write | ios/Pods/nanopb/pb_encode.c:103-124 | all of the bytes or none: fails exactly when they do not fit the window, the overflow of size_t included; the count equals the pointer's advance |
| OutStream.Stream.EncodeVarint | ios/Pods/nanopb/pb_encode.c:608-628 | emits the varint of any 64-bit value |
| OutStream.FillVarint | ios/Pods/nanopb/pb_encode.c:619-625 | the loop over the ten-byte buffer never overruns it and leaves the varint there |
| OutStream.FillNegativeVarint | ios/Pods/nanopb/pb_encode.c:583-602 | with 32-bit words only, the bytes of the sign-extended 64-bit value, at most ten |
| OutStream.EncodeNegativeVarint | ios/Pods/nanopb/pb_encode.c:583-605 | emits what pb_encode_varint emits for the sign-extended value |
| OutStream.NegativeVarintLength | ios/Pods/nanopb/pb_encode.c:583-605 | those are ten bytes for every negative 32-bit number |
| OutStream.RefillStep | ios/Pods/nanopb/pb_encode.c:591-599 | shifting by seven and refilling up to seven ones divides the emulated 64-bit number by 128, in an unsigned int of at least 32 bits |
| OutStream.EmitsNested | ios/Pods/nanopb/pb_encode.c:745-759 | a substream with exactly the room it needs emits on its parent's behalf |
| FieldIter.Iter.Next | ios/Pods/nanopb/pb_common.c:20-76 | after a step, addresses and required index are the closed-form ones of the new row; it wraps to row 0 exactly at the end |
| FieldIter.Iter.Begin | ios/Pods/nanopb/pb_common.c:8-18 | the same for row 0 |
| FieldIter.Iter.constructor | ios/Pods/nanopb/pb_common.c:8-18 | a new cursor stands on row 0 |
| FieldIter.Iter.Find | ios/Pods/nanopb/pb_common.c:78-95 | found exactly when the table has the tag (extension placeholders aside), within one lap, from any row; otherwise the cursor is back where it was |
| FieldIter.Iter.FindExtension | ios/Pods/nanopb/pb_decode.c:822-833 | found exactly when the table has an extension placeholder |
| FieldIter.OffsetIsOffsetof | ios/Pods/nanopb/pb.h:395-408 | the recurrence gives the offsetof of every member, and of its count, has or which member, for any struct the macros were applied to |
| Descriptor.FindTagUnique | ios/Pods/nanopb/pb_common.c:78-95 | with distinct tags the row found is the only one with that tag, so it does not depend on the starting row |
| Descriptor.UnionRun | ios/Pods/nanopb/pb_common.c:44-50 | the rows of a union are those that follow one another and are marked, up to the next unmarked one |
| Descriptor.DefaultsIdempotent | ios/Pods/nanopb/pb_decode.c:908-919 | setting a message to its defaults twice is setting it once |
| InStream.Input.DecodeVarint32Eof | ios/Pods/nanopb/pb_decode.c:187-247 | the 32-bit loop reads exactly what DecVarint32 says; end of input is told apart |
| InStream.Input.DecodeVarint32 | ios/Pods/nanopb/pb_decode.c:249-253 | the same without the end flag |
| InStream.Input.DecodeVarint | ios/Pods/nanopb/pb_decode.c:255-275 | at most ten bytes; the value of their groups mod 2^64 |
| InStream.Input.Read | ios/Pods/nanopb/pb_decode.c:102-137 | all bytes or none; position + bytes left stays the same |
| InStream.Input.ReadByte | ios/Pods/nanopb/pb_decode.c:141-157 | one byte, or an error at the end |
| InStream.Input.SkipVarint | ios/Pods/nanopb/pb_decode.c:278-287 | skips up to and including the first byte without continuation bit |
| InStream.Input.SkipString | ios/Pods/nanopb/pb_decode.c:289-296 | skips the payload, its length cut to size_t |
| InStream.SkipStringExact | ios/Pods/nanopb/pb_decode.c:289-296 | skipping a string is skipping what it announces if and only if size_t can hold the length, or the input ends before either |
| InStream.LongStringSkipped | ios/Pods/nanopb/pb_decode.c:289-296 | with a 16-bit size_t a string of 65536 bytes is skipped without its payload |
| InStream.Input.Skip | ios/Pods/nanopb/pb_decode.c:321-331 | skips a record's payload by wire type; any other wire type is an error |
| InStream.Input.DecodeTag | ios/Pods/nanopb/pb_decode.c:298-319 | tag and wire type, terminator, or error |
| InStream.Input.OpenSubstream | ios/Pods/nanopb/pb_decode.c:372-385 | the substream is exactly the announced bytes and the parent keeps the rest |
| InStream.Input.CloseSubstream | ios/Pods/nanopb/pb_decode.c:387-400 | the parent continues right after the announced bytes, however little was read of them |
| InStream.Or64Groups | ios/Pods/nanopb/pb_decode.c:262-271 | or-ing in one more shifted byte keeps the value of the groups mod 2^64, the tenth byte included |
| Decoder.DecodeNoInit | ios/Pods/nanopb/pb_decode.c:925-1073 | verdict, struct and rest of input are those of the specification; position + bytes left is kept |
| Decoder.Decode | ios/Pods/nanopb/pb_decode.c:1075-1087 | the same after the defaults |
| Decoder.DecodeDelimited | ios/Pods/nanopb/pb_decode.c:1104-1117 | the stream advances by prefix and announced length |
| Decoder.DecodeTurn | ios/Pods/nanopb/pb_decode.c:943-1021 | one record, looked up from wherever the cursor stands, has the specified effect and uses up input |
| Decoder.DecodeRow | ios/Pods/nanopb/pb_decode.c:988-1021 | the local counter of fixed-count arrays and the required marks are kept as specified |
| Decoder.CheckComplete | ios/Pods/nanopb/pb_decode.c:1023-1070 | passes exactly when the last fixed-count array is full and the tracked required fields were met |
| Decoder.DecodeField | ios/Pods/nanopb/pb_decode.c:406-480 | the row's slot, and no other, becomes what the record says |
| Decoder.DecodeRepeated | ios/Pods/nanopb/pb_decode.c:424-464 | packed or single, by wire type and element type |
| Decoder.DecodePacked | ios/Pods/nanopb/pb_decode.c:427-453 | elements are stored in order until the record or the array ends; leftovers are an overflow |
| Decoder.DecodeSubmessage | ios/Pods/nanopb/pb_decode.c:1503-1525 | array entries start from defaults, other messages are merged |
| Decoder.DecodeBlob | ios/Pods/nanopb/pb_decode.c:1431-1548 | bytes, strings and fixed-length bytes: stored when they fit, refused otherwise, whatever the width of size_t |
| Decoder.DecodeInteger | ios/Pods/nanopb/pb_decode.c:1329-1412 | the value after the cast to the storage type, refused when the cast changes it |
| Decoder.DecodeScalar | ios/Pods/nanopb/pb_decode.c:1318-1429 | the number each packable type reads |
| Decoder.DecodeFixed32 | ios/Pods/nanopb/pb_decode.c:1283-1296 | four bytes, little-endian |
| Decoder.DecodeFixed64 | ios/Pods/nanopb/pb_decode.c:1298-1316 | eight bytes, little-endian |
| Decoder.CastKeeps | ios/Pods/nanopb/pb_decode.c:1347-1360 | the comparison with the clamped value holds exactly for values within the storage type |
| Decoder.SetToDefaults | ios/Pods/nanopb/pb_decode.c:908-919 | the walk with the cursor resets every row; but for the zeros stored over fixed-count arrays, see below |
| Decoder.SetRowToDefault | ios/Pods/nanopb/pb_decode.c:836-906 | flags, counts and union tags are cleared, single values get their default, nothing else changes; but for the zero stored over a fixed-count array, see below |
| Varint.VarintRoundTrip | ios/Pods/nanopb/pb_decode.c:255-275 | decoding an encoded 64-bit value returns it and leaves exactly what follows |
| Varint.VarintLength | ios/Pods/nanopb/pb_encode.c:608-628 | the length is the least n with v < 2^(7n), and one for zero |
| Varint.VarintAtMostTen | ios/Pods/nanopb/pb_encode.c:608-628 | no 64-bit value takes more than ten bytes |
| Varint.VarintPrefixFree | ios/Pods/nanopb/pb_encode.c:608-628 | no encoding is a proper prefix of another |
| Varint.VarintMinimal | ios/Pods/nanopb/pb_decode.c:255-275 | nothing that decodes to v is shorter than the encoding of v |
| Varint.Varint32OfEncoding | ios/Pods/nanopb/pb_decode.c:187-247 | what the 32-bit decoder makes of every encoding: the low 32 bits exactly when the value is below 2^32 or its high part looks like a sign extension, and an error otherwise |
| Varint.Varint32Cases | ios/Pods/nanopb/pb_decode.c:187-247 | v below 2^32 comes back, v from 2^32 to 2^63 is refused, v from 2^64 - 2^31 on gives the low 32 bits |
| Varint.DecodersAgree | ios/Pods/nanopb/pb_decode.c:187-275 | on any input both decoders accept they consume the same bytes and agree mod 2^32 |
| ZigZag.EncodersInterleave | ios/Pods/Protobuf/objectivec/GPBUtilities_PackagePrivate.h:138-150 | nanopb's complement form and both exclusive-or forms map n to 2n or -2n - 1; the 32-bit one agrees on the sign-extended argument |
| ZigZag.DecodersInvert | ios/Pods/nanopb/pb_decode.c:1269-1281 | each decoder inverts each encoder on every word, and the two implementations agree |
| ZigZag.XorWithSign64 | ios/Pods/Protobuf/objectivec/GPBUtilities_PackagePrivate.h:147-150 | exclusive or with the smeared sign keeps or complements the word |

## Left out

- User callbacks for fields and streams, and I/O errors: foreign code; streams are memory buffers or sizing streams.
- Extension fields: the placeholder is looked for as in the code, but tables with one are not well formed, and user-supplied extension codecs are not part of this model.
- Error message strings, PB_OLD_CALLBACK_STYLE, PB_BUFFER_ONLY, the AVR workarounds and structure packing.
- PB_WITHOUT_64BIT: only its encoder for negative numbers is modelled.
- Encoding of pointer fields: HeapEncoding.EncRows is a function; the routines of pb_encode.c are modelled on static storage. PB_ENCODE_ARRAYS_UNPACKED is not set.
- HeapRoundTrip.HeapDecodeUndoesEncode: the tables of HeapDecoder.Decode, single pointers without a has_ flag as the macros make them, and no embedded proto3 message in which a single pointer leads to a number: there pb_check_proto3_default_value compares the first data_size bytes of the pointer itself with zero (pb_encode.c:317-336), so that what is sent depends on the address.
- HeapRoundTrip.MessageReturns: the same tables.
- HeapRoundTrip.ElidedRows: the same tables.
- HeapDecoder.Decode: unions, extensions, callbacks and static arrays of messages are not in its tables: static and pointer members of a union overlap, and the reset before an entry of a static array overwrites the pointers it holds, so that who owns what is not a property of the struct there. The same holds of HeapDecoder.DecodeNoInit.
- Releasing.Release: the same tables.
- Releasing.ReleaseRow: the same rows.
- Decoder.DecodeNoInit: with PB_ENABLE_MALLOC, decode_field first releases a union's old member (pb_decode.c:1128-1152) and fails when the old which_ tag names no row; the static decoder is modelled without it, and pb_decode, which resets the tag, never comes to that.
- HeapDecoder.DecodeStaticField: what it leaves in an item when it fails is not stated.
- HeapDecoder.DecodeTurn: does not make the search for an extension placeholder, since its tables have none; FieldIter.Iter.FindExtension states that it then leaves the cursor where it was.
- A link that names no table of the program means an empty one; the code has no such case.
- Update in place of embedded structs: a routine takes the storage of a field as a value and returns the new one, so aliasing between a struct and its parts does not arise; streams, cursors, output buffers, the words of the required-field set and the allocator are changed in place.
- Decoder.SetRowToDefault: for a fixed-count array the C code stores a pb_size_t zero where its size pointer points, which is the array itself: its first bytes are cleared, and when the array is shorter than a pb_size_t, bytes past it, past the struct even if it is the last member. The model leaves the array and what follows as they are.
- Decoder.SetToDefaults: the same store.
- Decoder.DecodeBlob: string bytes past the terminator are shown as zeros, although the code leaves what was there.
- Decoder.DecodeTurn: a record with tag zero and a nonzero wire type in an empty table is taken for the table's terminator row and read as a bool; the byte this writes to the struct is not modelled.
- Encoder.EncodeMessage: the proviso is Guards.MessageGuarded. Where it fails for a message, the guard of pb_encode_submessage opens a window that reaches past the buffer (Encoder.BodyGuardExact, Encoder.BodyGuardPassesTooMuch), and where it fails for a packed array, a length that was cut to size_t is written; what is written from there on is not modelled. Beyond SIZE_MAX a sizing stream says only whether the message can be encoded.
- Encoder.EncodeSubmessage: the same proviso.
- Encoder.EncodeBody: the same proviso.
- Encoder.GetEncodedSize: says nothing of the size where size_t cannot hold it.
- Encoder.CheckProto3Default: for a string buffer of size zero the code reads a byte that is not the buffer's; the model takes the string for empty.
- Exactness.ReturnsExactly: encodings of 2^63 bytes and more, which no memory holds, are left out; their length prefixes would be read as sign-extended 32-bit numbers.
- Bounds.AcceptedInBounds: what a fixed-count array held before is not checked by the decoder when no record of it arrives, so its items are not promised to be within bounds; Bounds.AcceptedFixed promises it where they were within bounds before, and Acceptance.AcceptedNotEncodable shows what else may happen.
- OutStream.RefillStep: assumes an unsigned int of 32 bits or more; the C code's shift by 25 is undefined below.
- Merging.MergeHomomorphism: excludes a terminator (tag zero) inside a, after which nothing is read (Locality.LoopConcat), and fixed-count arrays, which cannot be continued (Merging.FullArrayRefusesMore).
- pb_decode_nullterminated and pb_encode_nullterminated: pb_decode, and pb_encode with a zero byte after it.
- The other files of the Protocol Buffers runtime (declarations only), leveldb, BoringSSL and the network and user interface code: there is no body to model, or only glue around other libraries.
