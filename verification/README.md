# Verified models of Captain Cue

Captain Cue is an iOS app that keeps its data in a local store, synchronises it with a remote database, and
maps objects to JSON. This project models the parts of the app and of its bundled libraries in which most can
go wrong, and proves what they are relied on for.

* **nanopb**, the Protocol Buffers encoder and decoder (`pb_encode.c`, `pb_decode.c`, `pb_common.c`). A pure
  specification says which bytes a message has (`encode_spec.dfy`) and what bytes mean for a struct
  (`decode_spec.dfy`). Imperative models of the streams, the field iterator, the encoder, the heap, the decoder
  and `pb_release` are proved to refine it. About the specification: round trip and schema evolution, omission
  of defaults, decoding over what a struct held, concatenation as merge, required fields, and the bytes in terms of
  a grammar of their own. About the heap: on every input, into every destination,
  the live blocks are exactly the ones the struct owns, but for two upsets, which the specification tells from
  the bytes and the destination (`upsets.dfy`).
* **DataServiceManager**: the offline change log (`offline_log.dfy`) and the backup procedure (`backup.dfy`) as
  state machines over user actions, network changes, remote outcomes and callbacks, with classes whose methods
  take exactly those steps.
* **ObjectMapper**'s nested key paths (`object_mapper.dfy`): a recursive writer and a recursive reader over JSON
  trees.

| files | content |
|---|---|
| `wrappers`, `bits` | result types, machine words |
| `wire`, `wire_grammar`, `wire_reading` | the wire format, and its numbers told on their own |
| `input_stream`, `output_stream`, `substreams` | the two kinds of stream |
| `descriptor`, `layout`, `field_iterator` | field descriptors, struct layout, shapes |
| `encode_spec`, `encoder`, `encodable` | encoding |
| `decode_spec`, `merge`, `agreement` | what decoding means, and when structs show the same |
| `overlay`, `record_runs`, `overflows`, `evolution` | decoding over any struct; round trip and evolution |
| `upsets`, `upset_conditions`, `upset_inputs` | when a failing decode loses blocks or frees foreign ones |
| `required_fields`, `heap`, `ownership`, `releaser`, `erasure`, `regular` | required fields, allocation, ownership |
| `refinement`, `scalar_decoder`, `owned_decoder`, `decoder`, `transmission` | the decoder, and both ends together |
| `offline_log`, `backup`, `object_mapper` | the app's data service and the JSON mapper |

A struct is a map from field addresses to slots; addresses are those the field iterator computes. Sizes follow
the C types: `pb_size_t` may have 8, 16 or 32 bits and pointers 4 or 8 bytes, as parameters. Heap blocks have
numbers that are never reused, and allocation may be refused at any time. Since block numbers are arbitrary, the
decoder is compared with its specification on structs whose block numbers and unused heap entries are erased.

Three promises do not hold on all inputs. For each there is the condition under which it holds, and for the
first two a concrete input on which it does not:

* The round trip fails for a proto3-style scalar that is left out because it is zero when its descriptor has
  another default (`Evolution.DefaultOverrides`), and for a proto3-style submessage that is left out because
  the bytes compared of the pointers in it are zero (`Evolution.PointerOmitted`). It holds of exactly the
  messages that are `Agreement.Faithful`.
* Decoding is promised to initialise its destination and to release what it allocated when it fails. An array
  entry is counted first, though. If its length prefix cannot be read, release takes what the entry's memory
  held for its own (`UpsetInputs.NotesAreStale`), unless the entries of the destination own nothing, as in a
  zeroed struct. And one entry more than `pb_size_t` can count makes the count zero, so that release passes all
  entries over (`UpsetInputs.NotesAreLost`), unless every owning array is shorter than `PB_SIZE_MAX`.
  `Transmission.DecodeAndRelease` says for every input and destination what becomes of the heap.
* A backup never reports that it is complete when the cloud holds nothing, or when one collection has local
  objects and an empty cloud collection (`Backup.CompletionIff`, `Backup.EveryRunCompletes`).

Assumptions, where the code relies on its callers or on libraries:

* Descriptors are what the generator produces (`Descriptor.WellFormed`): tags distinct and at least 1, integer
  fields of 1, 2, 4 or 8 bytes, and only oneof members share an address. Oneofs and arrays without a count hold
  no pointers.
* The destination of `pb_decode` has the shape of its descriptor; what it holds is arbitrary.
* The two services behind the data service are maps. Locally (Helpers/Data Service/Local/RealmDataService.swift),
  objects have primary keys, adding and updating write the whole object (:49-77), and shots and log records are
  found by a filter over everything stored (:79-109). Remotely
  (Helpers/Data Service/Remote/FirebaseDataService.swift), adding and updating both set the whole document of the
  object's id (:66-79), a log record's deletion deletes the document of its `objectID` (:123-127), and a download
  lists everything the collection holds (:49-64).
* Log records have fresh numbers, and object ids are unique across the two collections. The remote deals with
  requests in the order they were issued (in any order for the backup), and only these requests change it. Adding
  uses a new id and deleting an existing one; deleting a log record that is gone already does nothing.

Where code and documentation disagree, the code is followed. One such place: the 32-bit reader is documented to
decode any varint, but rejects or truncates some over-long forms; the claims about it are for encoder output.

## Model

| member | source | states |
|---|---|---|
| WireFacts.VarintRoundTrip | Captain Cue/Pods/nanopb/pb_encode.c:599-619 | For every 64-bit word the encoding has one to ten bytes, and the 64-bit decoder returns the word from it and consumes exactly those bytes, whatever follows. |
| WireFacts.VarintLength | Captain Cue/Pods/nanopb/pb_encode.c:599-619 | The encoding is the minimal base-128 form: it has at most n bytes exactly when the value fits n groups of seven bits. |
| WireFacts.ZigZagRoundTrip | Captain Cue/Pods/nanopb/pb_decode.c:1269-1281 | The zigzag bit trick maps every int64 to the documented unsigned value and back. |
| WireFacts.SvarintRoundTrip | Captain Cue/Pods/nanopb/pb_encode.c:621-630 | For every int64, reading back what the signed encoder wrote gives the integer and consumes exactly its bytes, whatever follows. |
| WireFacts.FixedRoundTrip | Captain Cue/Pods/nanopb/pb_decode.c:1283-1316 | Little-endian fixed-width words of any width read back as written. |
| WireFacts.Varint32RoundTrip | Captain Cue/Pods/nanopb/pb_decode.c:187-247 | The 32-bit reader, with its eight-bit wrapping position counter, returns every value below 2^32 from its encoding. |
| WireFacts.Varint32OfNegative | Captain Cue/Pods/nanopb/pb_decode.c:187-247 | The 32-bit reader returns the low 32 bits of every negative int32, which the encoder sign-extends to ten bytes. |
| WireFacts.Varint32Rejects | Captain Cue/Pods/nanopb/pb_decode.c:187-247 | The 32-bit reader rejects every encoded value in [2^32, 2^35), whatever follows. |
| WireFacts.StringRoundTrip | Captain Cue/Pods/nanopb/pb_encode.c:700-706 | A length-prefixed payload below 2^32 bytes reads back and consumes exactly its bytes. |
| WireFacts.TagRoundTrip | Captain Cue/Pods/nanopb/pb_decode.c:298-319 | A key with a tag in [1, 2^29) reads back as its tag and wire type. |
| WireGrammar.VarintIff | Captain Cue/Pods/nanopb/pb_encode.c:599-619 | The bytes of a varint, told by groups of seven bits lowest first, the high bit on all but the last and none too many, are those the encoder writes, and no others. |
| WireGrammar.KeyIsVarint | Captain Cue/Pods/nanopb/pb_encode.c:666-698 | The key of a field is eight times its tag plus, as numbers, 0 for booleans and integers, 1 for 64-bit words, 2 for what has a length, 5 for 32-bit words. |
| WireGrammar.FieldsAreRecords | Captain Cue/Pods/nanopb/pb_encode.c:519-541 | What pb_encode writes parses as the records of the message under a grammar stated on its own: for each field present its tag, wire type and payload (true as 1, negative integers modulo 2^64, zigzag as documented, words lowest byte first, texts and submessages behind their length, numbers of an array in one packed run), in the order of the descriptor, and nothing else. |
| WireReading.SkipIff | Captain Cue/Pods/nanopb/pb_decode.c:321-333 | An unknown field takes a varint of any length for wire type 0, 8 bytes for 1, 4 bytes for 5; every number but 0, 1, 2 and 5 is refused. |
| WireReading.PayloadIsSkipped | Captain Cue/Pods/nanopb/pb_decode.c:321-333 | Every payload of the grammar is skipped to its last byte, whatever follows; those with a length by it. |
| WireReading.UnknownRecords | Captain Cue/Pods/nanopb/pb_decode.c:943-986 | Any records, whoever wrote them, whose tags a message does not have leave the struct as it is. |
| WireReading.NumberIsRead | Captain Cue/Pods/nanopb/pb_decode.c:1318-1412 | From a number in a record each type and size of field reads what is meant, or refuses what it cannot hold; a negative 32-bit integer may come in five bytes or in ten. |
| WireReading.TextIsRead | Captain Cue/Pods/nanopb/pb_decode.c:1431-1548 | Strings, byte arrays and fixed-length bytes are taken exactly if they fit their member, with the terminator or the count; no fixed-length bytes are read as zeros. |
| WireReading.TextIsOwned | Captain Cue/Pods/nanopb/pb_decode.c:1431-1501 | The same for memory allocated for them: exactly sizes that can be told are taken. |
| WireReading.StoredFits | Captain Cue/Pods/nanopb/pb_decode.c:1318-1548 | From any bytes at all, what a decoder accepts for a member fits it. |
| WireReading.CStringEnds | Captain Cue/Pods/nanopb/pb_encode.c:864-888 | A string ends before its first zero, or with its buffer. |
| WireReading.ZeroedNumber | Captain Cue/Pods/nanopb/pb_decode.c:836-919 | Zeroed memory shows zeros in numbers and fixed-length bytes and nothing in strings and byte arrays. |
| WireReading.OmittedIff | Captain Cue/Pods/nanopb/pb_encode.c:237-328 | A proto3-style scalar is left out exactly when it is zero, false or empty. |
| InputStream.IStream.Read | Captain Cue/Pods/nanopb/pb_decode.c:102-137 | Succeeds exactly when enough bytes are left; then those bytes land in the destination and pos and bytes_left move by the count. |
| InputStream.IStream.BufRead | Captain Cue/Pods/nanopb/pb_decode.c:87-100 | Copies the next bytes of the buffer and advances. |
| InputStream.IStream.ReadByte | Captain Cue/Pods/nanopb/pb_decode.c:141-157 | Reads the next byte, or fails at the end and leaves bytes_left at zero. |
| InputStream.IStream.DecodeVarint32 | Captain Cue/Pods/nanopb/pb_decode.c:187-253 | The loop refines the 32-bit varint of the specification; end of file is told apart from a broken varint. |
| InputStream.IStream.DecodeVarint | Captain Cue/Pods/nanopb/pb_decode.c:255-275 | The loop over at most ten groups, or-ing shifted groups into a 64-bit word, refines the 64-bit varint of the specification. |
| InputStream.PlacedGroup | Captain Cue/Pods/nanopb/pb_decode.c:255-275 | Or-ing the next shifted group into the accumulator is adding it at its place; of the tenth group only the lowest bit stays. |
| InputStream.IStream.SkipVarint | Captain Cue/Pods/nanopb/pb_decode.c:278-287 | Skips exactly one varint of any length. |
| InputStream.IStream.SkipString | Captain Cue/Pods/nanopb/pb_decode.c:289-296 | Skips a length prefix and its payload. |
| InputStream.IStream.DecodeTag | Captain Cue/Pods/nanopb/pb_decode.c:298-319 | Reads a key; a zero word ends the message like the end of the stream. |
| InputStream.IStream.SkipField | Captain Cue/Pods/nanopb/pb_decode.c:321-333 | Consumes exactly the payload of an unknown field of any wire type, and rejects unknown wire types. |
| InputStream.IStream.DecodeSvarint | Captain Cue/Pods/nanopb/pb_decode.c:1269-1281 | Reads a zigzag integer. |
| InputStream.IStream.DecodeFixed | Captain Cue/Pods/nanopb/pb_decode.c:1283-1316 | Reads a little-endian word. |
| InputStream.IStream.MakeSubstream | Captain Cue/Pods/nanopb/pb_decode.c:372-385 | The substream holds exactly the announced payload; the parent keeps only what follows it. |
| InputStream.IStream.CloseSubstream | Captain Cue/Pods/nanopb/pb_decode.c:387-400 | Whatever the substream left over is read off, and the parent stands behind the payload. |
| Substreams.Run | Captain Cue/Pods/nanopb/pb_decode.c:372-400 | Any sequence of reads and substreams, nested to any depth and read to any extent, moves the stream by exactly the prefixes and declared sizes, and never past its end. |
| OutputStream.VarintGroups | Captain Cue/Pods/nanopb/pb_encode.c:599-619 | The loop filling the ten-byte buffer produces the encoding of the value. |
| OutputStream.OStream.Write | Captain Cue/Pods/nanopb/pb_encode.c:103-121 | Writes, or counts; fails exactly when max_size would be passed, and changes nothing outside the bytes granted. |
| OutputStream.OStream.BufWrite | Captain Cue/Pods/nanopb/pb_encode.c:74-84 | The copying loop puts the data at the current position and nothing else. |
| OutputStream.EffectTwice | Captain Cue/Pods/nanopb/pb_encode.c:103-121 | Two writes in a row have the effect of one write of both parts, on real and on sizing streams. |
| OutputStream.SubstreamFilled | Captain Cue/Pods/nanopb/pb_encode.c:708-756 | A substream granted exactly the size its payload needs is filled to the last byte, and its effect is the effect on the parent. |
| OutputStream.OStream.EncodeVarint | Captain Cue/Pods/nanopb/pb_encode.c:599-619 | Writes the varint of the specification, or counts its bytes. |
| OutputStream.OStream.EncodeSvarint | Captain Cue/Pods/nanopb/pb_encode.c:621-630 | Writes the zigzag varint. |
| OutputStream.OStream.EncodeFixed | Captain Cue/Pods/nanopb/pb_encode.c:632-658 | Writes a little-endian word. |
| OutputStream.OStream.EncodeTag | Captain Cue/Pods/nanopb/pb_encode.c:660-664 | Writes a key. |
| OutputStream.OStream.EncodeString | Captain Cue/Pods/nanopb/pb_encode.c:700-706 | Writes a length prefix and the payload. |
| FieldIterator.FieldIter.Begin | Captain Cue/Pods/nanopb/pb_common.c:8-18 | Establishes the closed forms of pData, pSize and required_field_index at the first field. |
| FieldIterator.FieldIter.Next | Captain Cue/Pods/nanopb/pb_common.c:20-76 | Keeps pData, pSize and required_field_index equal to their closed forms at pos, across unions, arrays, pointers and wraparound; true exactly when it did not wrap. |
| FieldIterator.FieldIter.Find | Captain Cue/Pods/nanopb/pb_common.c:78-95 | From any position the search terminates, succeeds exactly when a field with the tag exists that is no extension, stops on such a field, and otherwise leaves pos where it was. |
| FieldIterator.FindIsUnique | Captain Cue/Pods/nanopb/pb_common.c:78-95 | With distinct tags the search can only end at the one field of the tag. |
| Layout.AddressesAreOffsets | Captain Cue/Pods/nanopb/pb.h:390-570 | For a struct of any members, in order, with the sizes and offsets the compiler tells, the descriptor that the macros make of it leads the iterator to the offset of every member and of its count, flag or union tag. |
| Layout.OnlyUnionsShare | Captain Cue/Pods/nanopb/pb.h:390-570 | Two fields have one address exactly if they and all between them are members of one union. |
| Layout.LaidIsWellFormed | Captain Cue/Pods/nanopb/pb.h:390-570 | So such a descriptor meets what the other results ask of addresses. |
| Encoder.StringLength | Captain Cue/Pods/nanopb/pb_encode.c:864-888 | The bounded scan finds the length of the C string. |
| Encoder.EncodeValue | Captain Cue/Pods/nanopb/pb_encode.c:760-902 | Each value encoder writes, or counts, the specified bytes, and refuses exactly what the specification refuses. |
| Encoder.PackedSize | Captain Cue/Pods/nanopb/pb_encode.c:160-186 | The size computed for a packed array, by formula or by a sizing stream, is the length of the bytes that will be written. |
| Encoder.EncodeArray | Captain Cue/Pods/nanopb/pb_encode.c:144-233 | Packed and unpacked arrays, and the refusal of counts above the array size. |
| Encoder.EncodeSubmessage | Captain Cue/Pods/nanopb/pb_encode.c:708-756 | The sizing pass and the writing pass agree at every depth: the branch that reports a changed size is never reached. |
| Encoder.EncodeNested | Captain Cue/Pods/nanopb/pb_encode.c:733-755 | The pass over the substream of exactly the computed size always succeeds and fills it. |
| Encoder.CheckDefaultValue | Captain Cue/Pods/nanopb/pb_encode.c:237-328 | The recursive default-value check, with its loop over a submessage, decides the predicate that omission is judged by. |
| Encoder.CheckZeroBytes | Captain Cue/Pods/nanopb/pb_encode.c:310-327 | The catch-all loop compares as many bytes of a pointer as what it points to has: it can find a pointer zero that is not null, and the other way round. |
| Encoder.EncodeField | Captain Cue/Pods/nanopb/pb_encode.c:332-417 | Presence, counts, union tags and default omission as specified for each kind of field. |
| Encoder.EncodeMessage | Captain Cue/Pods/nanopb/pb_encode.c:519-541 | The walk over the descriptor writes exactly the specified bytes: success if and only if the message is encodable and fits in max_size - bytes_written, never a byte past max_size. |
| Encoder.GetEncodedSize | Captain Cue/Pods/nanopb/pb_encode.c:558-567 | The size reported is the length of the bytes pb_encode writes. |
| Encodability.MessageEncodes | Captain Cue/Pods/nanopb/pb_encode.c:519-541 | A message, heap fields included, is encodable if and only if its counts and byte arrays stay within its descriptor, required pointers are set, what pointers lead to was written, and its packed arrays and submessages have encodings of a countable size. |
| Merge.FieldPrefix | Captain Cue/Pods/nanopb/pb_decode.c:731-757 | Decoding a field does not look past the bytes it uses. |
| Merge.RunsCompose | Captain Cue/Pods/nanopb/pb_decode.c:925-986 | Running the decode loop over two byte sequences joined is running it over the first and then over the second. |
| Merge.MergeExactly | Captain Cue/Pods/nanopb/pb_decode.c:925-1073 | What decoding xs followed by ys in one call gives, exactly: the struct two calls give, accepted if the parts together held the required fields. |
| Merge.ConcatenationIsMerge | Captain Cue/Pods/nanopb/pb_decode.h:70-80 | Two messages decoded one after the other into a struct, heap fields included, give the same as their concatenation decoded at once. |
| Merge.ZeroEnds | Captain Cue/Pods/nanopb/pb_decode.c:943-955 | A zero byte where a key is due ends the message, and what follows stays in the stream. |
| RecordRuns.ValueSkips | Captain Cue/Pods/nanopb/pb_decode.c:321-333 | The payload of a field the receiver does not know is skipped to its last byte and no further. |
| RecordRuns.ScalarDecodes | Captain Cue/Pods/nanopb/pb_decode.c:1318-1501 | Every encoded scalar, string and byte array decodes in place to the same value using all its bytes. |
| RecordRuns.OwnedDecodes | Captain Cue/Pods/nanopb/pb_decode.c:1431-1501 | Every encoded string and byte array decodes to the same contents in a block of its own, using all its bytes. |
| RecordRuns.EntryDecodes | Captain Cue/Pods/nanopb/pb_decode.c:533-592 | What is encoded from a heap entry decodes to a new entry that shows it, submessages over their defaults. |
| RecordRuns.EachAppends | Captain Cue/Pods/nanopb/pb_decode.c:653-669 | Records with a key each, of numbers too, are appended to a heap array one by one, in order; the entries before them stay. |
| RecordRuns.GrowDecodes | Captain Cue/Pods/nanopb/pb_decode.c:595-651 | A packed run is appended to a heap array, in order; the entries before it stay. |
| RecordRuns.EachRuns | Captain Cue/Pods/nanopb/pb_decode.c:424-464 | Records with a key each, of numbers too, are appended to a static array one by one, in order; the entries before and behind them stay. |
| RecordRuns.MessageDecodes | Captain Cue/Pods/nanopb/pb_decode.c:925-1073 | The last value wins: over a struct that holds anything, an encoded message leaves what it carries (the last value of a scalar, submessages merged at every depth, entries of counted arrays appended and of fixed-count arrays replaced, oneof members and blocks on the heap made anew) and changes nothing where it carries nothing. |
| Overflows.AcceptedIff | Captain Cue/Pods/nanopb/pb_decode.c:460-461 | Over a struct that holds anything, a message that was encoded is accepted if and only if, at every depth, counted arrays have room for the entries it adds and oneofs that it sets hold nothing or a field of their message. |
| Evolution.OmissionIff | Captain Cue/Pods/nanopb/pb_encode.c:237-328 | What the default check lets the encoder leave out, submessages included, agrees with what initialisation installs in the receiver if and only if, at every place left out, the default of the receiver would be left out too and pointers are null. |
| Evolution.OverDefaults | Captain Cue/Pods/nanopb/pb_decode.c:1075-1087 | Over a struct at its defaults this is the message itself, if and only if nothing was left out that comes back otherwise. |
| Evolution.DefaultOverrides | Captain Cue/Pods/nanopb/pb_encode.c:237-328 | A concrete proto3-style field with a descriptor default for which the round trip fails. |
| Evolution.PointerOmitted | Captain Cue/Pods/nanopb/pb_encode.c:310-327 | A concrete proto3-style submessage with a string on the heap that is left out because the lowest byte of its address is zero, whatever the text. |
| Evolution.SchemaEvolution | Captain Cue/Pods/nanopb/pb_decode.c:925-1087 | Bytes encoded with one descriptor are accepted by any descriptor obtained by deleting fields, at any depth, static or on the heap, into any struct; the result shows exactly the fields that were kept as they were if and only if, wherever the message shows it, no scalar was left out for which the receiver has a default that would be sent, and no submessage with a pointer in it that is not null. |
| Evolution.EvolvesFromItself | Captain Cue/Pods/nanopb/pb_decode.c:925-1087 | Every well-formed descriptor is an evolution of itself, so the round trip is a special case. |
| Evolution.MessageRoundTrip | Captain Cue/Pods/nanopb/pb_decode.c:1075-1087 | Encoding and decoding a conforming message, static or on the heap, is accepted and gives the same presence, counts and union members and the same values where present, if and only if no scalar was left out whose own default would be sent, and no submessage with a pointer in it that is not null. |
| Evolution.LastOneWins | Captain Cue/Pods/nanopb/pb_decode.h:70-80 | A second message decoded into the struct of a first one, in a call of its own or behind it in one, is accepted exactly when there is room; what it carries shows in the struct, and where it carries nothing, what the first one left. |
| Evolution.SilentIsFaithful | Captain Cue/Pods/nanopb/pb_encode.c:237-328 | The condition of the two rows above holds of every message if no proto3-style scalar of the receiver has a default that would be sent, fixed-length bytes aside, which are never left out, and no proto3-style submessage in place has pointers. |
| Agreement.DefaultsAtDefault | Captain Cue/Pods/nanopb/pb_decode.c:836-919 | Initialising any struct of the right shape gives a struct at its defaults, at every depth. |
| RequiredFields.SeenSet.Mark | Captain Cue/Pods/nanopb/pb_decode.c:1012-1017 | The bit set in one of two words adds exactly that field number to the set the words represent. |
| RequiredFields.SeenSet.HasFirst | Captain Cue/Pods/nanopb/pb_decode.c:1051-1068 | The comparison of whole words and of the shifted mask is set inclusion, for every count from 0 to 64. |
| RequiredFields.WordIsMask | Captain Cue/Pods/nanopb/pb_decode.c:1056-1064 | A word equals the mask of its lowest bits exactly when all of those were seen. |
| RequiredFields.CheckRequired | Captain Cue/Pods/nanopb/pb_decode.c:1030-1070 | Walking the iterator to the end and comparing words decides whether the first 64 required fields were all seen. |
| RequiredFields.RequiredIff | Captain Cue/Pods/nanopb/pb_decode.c:925-1073 | A stream that can be read is accepted if and only if each required field with fewer than 64 before it came in it, and every fixed-count array that came was filled. |
| RequiredFields.FilledIff | Captain Cue/Pods/nanopb/pb_decode.c:988-1028 | The check at the end and the one when another fixed-count array begins together decide that each was filled, whatever the number of records its entries came in. |
| RequiredFields.SeenIsTraced | Captain Cue/Pods/nanopb/pb_decode.c:957-1021 | The numbers marked are those of the required fields that were decoded, no more and no fewer. |
| Releaser.SetMessageToDefaults | Captain Cue/Pods/nanopb/pb_decode.c:908-919 | The walk sets every field of the struct as specified. |
| Releaser.SetFieldToDefault | Captain Cue/Pods/nanopb/pb_decode.c:836-906 | Defaults by kind of field: has flags, counts and union tags cleared, pointers nulled, array contents left alone. |
| Releaser.ReleaseMessage | Captain Cue/Pods/nanopb/pb_decode.c:1245-1259 | Whatever the struct holds, the blocks freed are exactly those it owns, with multiplicity, unused array entries aside; the pointers are nulled and the counts cleared. |
| Releaser.ReleaseField | Captain Cue/Pods/nanopb/pb_decode.c:1154-1243 | The same for one field: submessages, arrays of submessages, pointers, and arrays of strings and bytes. |
| Releaser.ReleaseAgain | Captain Cue/Pods/nanopb/pb_decode.c:1245-1259 | A second release frees nothing and changes nothing. |
| Ownership.ReleasedOwnsNothing | Captain Cue/Pods/nanopb/pb_decode.c:1154-1259 | A released struct owns nothing and has the shape to be decoded into again. |
| Ownership.DefaultsOwnNothing | Captain Cue/Pods/nanopb/pb_decode.c:836-919 | Whatever a struct held, once it is initialised it owns nothing. |
| Ownership.ReleasedTwice | Captain Cue/Pods/nanopb/pb_decode.c:1154-1259 | Releasing is idempotent. |
| Ownership.SlotWritten | Captain Cue/Pods/nanopb/pb_decode.c:406-675 | Writing one field changes what the struct owns by exactly what the field owned and owns. |
| Ownership.StaticOwnsNothing | Captain Cue/Pods/nanopb/pb_decode.c:1154-1259 | A struct without pointer fields owns no blocks. |
| UpsetConditions.CountableLoop | Captain Cue/Pods/nanopb/pb_decode.c:460-461 | Decoding can lose blocks only if some static array of entries that may own memory, at some depth, is as long as its count can tell. |
| UpsetConditions.TidyLoop | Captain Cue/Pods/nanopb/pb_decode.c:1503-1525 | Decoding can take blocks for its own that are not only if some static array entry of the destination, at some depth, looked like it owned something; decoding keeps this of the entries not in use. |
| UpsetConditions.NothingUpsets | Captain Cue/Pods/nanopb/pb_decode.c:1075-1087 | The two rows above for pb_decode: what is required of the descriptor and of the destination so that no byte sequence upsets the books of the heap. |
| UpsetInputs.StaleDestination | Captain Cue/Pods/nanopb/pb_decode.c:458-463 | For every destination in which an entry of an array looks like it owned something, first or behind entries that may be empty messages, an input that makes release take it for its own: the entries before it, and its key. |
| UpsetInputs.LostDestination | Captain Cue/Pods/nanopb/pb_decode.c:460-461 | For every array of the greatest length pb_size_t can count, every destination, and every payload that fills entries with something they own: one entry more than can be counted makes decoding fail with the entries lost. |
| UpsetInputs.NotesAreLost | Captain Cue/Pods/nanopb/pb_decode.c:460-461 | The smallest such array and input. |
| UpsetInputs.NotesAreStale | Captain Cue/Pods/nanopb/pb_decode.c:458-463 | The smallest stale destination, and the one-byte input that reaches it. |
| Heap.Arena.Realloc | Captain Cue/Pods/nanopb/pb_decode.c:523-527 | May refuse and leave the block alone; otherwise the block has the new size, keeps the common part, and its old number is not live twice. |
| Heap.Arena.Free | Captain Cue/Pods/nanopb/pb_decode.c:1237-1241 | Frees a block; freeing one that is not live goes on record. |
| Heap.SizeGuard | Captain Cue/Pods/nanopb/pb_decode.c:504-519 | The guard passes if and only if both sizes are nonzero and their product fits a size_t. |
| Heap.AllocateField | Captain Cue/Pods/nanopb/pb_decode.c:487-530 | On success the block holds the asked number of entries and the old contents; on failure the old block stays in place. |
| ScalarDecoder.DecodeSignedVarint | Captain Cue/Pods/nanopb/pb_decode.c:1329-1364 | Casting to the field size and comparing accepts exactly the values of that size. |
| ScalarDecoder.DecodeUnsignedVarint | Captain Cue/Pods/nanopb/pb_decode.c:1366-1388 | The same for unsigned fields. |
| ScalarDecoder.DecodeZigZagVarint | Captain Cue/Pods/nanopb/pb_decode.c:1390-1412 | The same for zigzag fields. |
| ScalarDecoder.DecodeScalar | Captain Cue/Pods/nanopb/pb_decode.c:1318-1501 | Every decoder of values in place refines the specification: result, bytes used and failures. |
| ScalarDecoder.DecodeFixedLengthBytes | Captain Cue/Pods/nanopb/pb_decode.c:1527-1548 | Exact length, or all zeros for an empty payload. |
| OwnedDecoder.AllocationSize | Captain Cue/Pods/nanopb/pb_decode.c:1440-1445 | The wrap-around tests on allocation sizes pass exactly the sizes that can be represented. |
| OwnedDecoder.DecodeOwned | Captain Cue/Pods/nanopb/pb_decode.c:1431-1501 | Strings and bytes on the heap: the block is owned whether or not the read succeeds, and holds exactly the payload when it does. |
| Decoder.DecodeSubmessage | Captain Cue/Pods/nanopb/pb_decode.c:1503-1525 | New array entries are initialised, whatever their memory held, and released on failure; other submessages are merged into; without a length prefix the entry keeps what it held. Result and ownership as specified. |
| Decoder.DecodePackedArray | Captain Cue/Pods/nanopb/pb_decode.c:425-452 | A packed run into a static array refines the specification, overflow included. |
| Decoder.DecodeStaticArray | Captain Cue/Pods/nanopb/pb_decode.c:424-464 | Packed runs and single entries of static arrays, with the count incremented before the room is checked and before the entry is initialised, and what either does to the books of the heap. |
| Decoder.DecodeStaticField | Captain Cue/Pods/nanopb/pb_decode.c:406-480 | Each kind of static field refines the specification and keeps the books of the heap. |
| Decoder.DecodeEntry | Captain Cue/Pods/nanopb/pb_decode.c:533-547 | An initialised heap entry is decoded as specified and owns what it allocated, even after a failure. |
| Decoder.DecodeSinglePointer | Captain Cue/Pods/nanopb/pb_decode.c:563-592 | An earlier submessage is released first; afterwards the field owns one block with the decoded value. |
| Decoder.DecodeArrayEntry | Captain Cue/Pods/nanopb/pb_decode.c:653-669 | One entry appended to a heap array: earlier entries stay, the new one is inside the allocation and counted before it is decoded. |
| Decoder.NextAllocation | Captain Cue/Pods/nanopb/pb_decode.c:621-628 | The new capacity is the rounded-up guess when that stays countable, else one more; always larger and never above PB_SIZE_MAX. |
| Decoder.MakeRoom | Captain Cue/Pods/nanopb/pb_decode.c:619-635 | The capacity stays between the count and PB_SIZE_MAX, within the allocated block, and entries in use survive the reallocation. |
| Decoder.DecodeNextEntry | Captain Cue/Pods/nanopb/pb_decode.c:608-647 | One turn of the packed loop writes inside the allocation, uses at least one byte, and appends what the specification appends. |
| Decoder.DecodeGrowingArray | Captain Cue/Pods/nanopb/pb_decode.c:595-651 | The whole packed run terminates and refines the specification; its blocks stay accounted for on every exit. |
| Decoder.DecodePointerField | Captain Cue/Pods/nanopb/pb_decode.c:550-675 | Each kind of pointer field refines the specification and keeps the books of the heap. |
| Decoder.ReleaseUnionField | Captain Cue/Pods/nanopb/pb_decode.c:1128-1152 | The old member is released, the iterator returns to the new one (the second search cannot fail), and only an unknown union tag is rejected; the heap stays as it was. |
| Decoder.DecodeField | Captain Cue/Pods/nanopb/pb_decode.c:731-757 | One field of a message: result, bytes used, failures and ownership as specified. |
| Decoder.DecodeFixedArray | Captain Cue/Pods/nanopb/pb_decode.c:988-1010 | Arrays without a count of their own, counted by the caller. |
| Decoder.DecodeFound | Captain Cue/Pods/nanopb/pb_decode.c:986-1021 | Switching between fixed-count arrays, marking required fields, decoding. |
| Decoder.DecodeNext | Captain Cue/Pods/nanopb/pb_decode.c:943-1021 | One turn of the decode loop is one step of the specification; unknown fields are skipped. |
| Decoder.CheckComplete | Captain Cue/Pods/nanopb/pb_decode.c:1023-1070 | After the loop: accepts exactly when the last fixed-count array is full and no tracked required field is missing. |
| Decoder.DecodeNoinit | Captain Cue/Pods/nanopb/pb_decode.c:925-1073 | Succeeds if and only if the specification accepts the bytes and no allocation was refused; then the struct holds exactly the specified contents and exactly the specified bytes were taken. In every case the live blocks are those live before and those the struct owns, but for a slip, which is there exactly when the specification tells the corresponding upset and no allocation was refused. Descriptors without pointers never allocate and never slip. |
| Decoder.Decode | Captain Cue/Pods/nanopb/pb_decode.c:1075-1087 | The same with initialisation, into a struct that may hold anything, and with everything released when decoding fails. |
| Erasure.ErasedDefaults | Captain Cue/Pods/nanopb/pb_decode.c:908-919 | Initialisation does not depend on where heap blocks lie. |
| Transmission.Send | Captain Cue/Pods/nanopb/pb_encode.c:86-101 | Encoding into a buffer succeeds if and only if the message fits its descriptor and the buffer; then the buffer starts with the encoding and is unchanged behind it. |
| Transmission.Transmit | Captain Cue/Pods/nanopb/pb_decode.c:1075-1087 | Encoding into a buffer and decoding from it, with equal or evolved descriptors, heap fields included: succeeds exactly when the message fits and no allocation is refused; the receiver then agrees with the sender on all fields it knows if and only if the omission condition holds, and the heap has gained exactly what the new struct owns. |
| Transmission.ZeroedIsReady | Captain Cue/Pods/nanopb/pb_decode.c:1075-1087 | A zeroed struct is a destination that cannot upset the books. |
| Transmission.DecodeAndRelease | Captain Cue/Pods/nanopb/pb_decode.c:1075-1259 | For every destination and every input, after a failed decode, and after a successful one followed by a release, the heap is as it was if and only if the specification tells no upset or an allocation was refused; which upset it was tells whether blocks stay behind or foreign ones were freed; releasing again changes nothing. |
| Transmission.DecodeLeavesNothing | Captain Cue/Pods/nanopb/pb_decode.c:1075-1259 | With arrays that can be counted and a destination whose array entries own nothing, no input changes the heap. |
| Transmission.NotesLeak | Captain Cue/Pods/nanopb/pb_decode.c:460-461 | The smallest overlong array decoded into a zeroed struct: blocks stay live although the struct was released. |
| Transmission.NotesTaken | Captain Cue/Pods/nanopb/pb_decode.c:458-463 | The smallest stale destination decoded into: a block the struct never owned is freed. |
| OfflineLog.DataServiceManager.MergeChange | Captain Cue/Captain Cue/Helpers/Data Service/DataServiceManager.swift:117-144 | The request made for a record, by its method. |
| OfflineLog.DataServiceManager.CheckAndMergeChange | Captain Cue/Captain Cue/Helpers/Data Service/DataServiceManager.swift:76-115 | With the network available, one request for each record, with the current local contents or a deletion; otherwise nothing. |
| OfflineLog.DataServiceManager.GetOfflineStore | Captain Cue/Captain Cue/Helpers/Data Service/DataServiceManager.swift:153-153 | The records of an object. |
| OfflineLog.DataServiceManager.ChangeInLocalDatabase | Captain Cue/Captain Cue/Helpers/Data Service/DataServiceManager.swift:146-178 | The records the object had are replaced by the new one, then the log is checked. |
| OfflineLog.DataServiceManager.AddObject | Captain Cue/Captain Cue/Helpers/Data Service/DataServiceManager.swift:190-199 | The step of adding an object. |
| OfflineLog.DataServiceManager.UpdateObject | Captain Cue/Captain Cue/Helpers/Data Service/DataServiceManager.swift:201-210 | The step of updating an object. |
| OfflineLog.DataServiceManager.GetShotData | Captain Cue/Captain Cue/Helpers/Data Service/DataServiceManager.swift:212-215 | Lists exactly the shots of a report, once each. |
| OfflineLog.DataServiceManager.DeleteObject | Captain Cue/Captain Cue/Helpers/Data Service/DataServiceManager.swift:222-237 | The step of deleting an object; the shots of a report are deleted first, each with its own record. |
| OfflineLog.DataServiceManager.ChangeInternetConnection | Captain Cue/Captain Cue/Helpers/Data Service/DataServiceManager.swift:54-57 | The step of a network change. |
| OfflineLog.DataServiceManager.Complete | Captain Cue/Captain Cue/Helpers/Data Service/DataServiceManager.swift:121-126 | The completion handler: a success removes the record the request was made for, if it is still there. |
| OfflineLog.StepKeeps | Captain Cue/Captain Cue/Helpers/Data Service/DataServiceManager.swift:76-237 | Every user operation, network change, remote outcome and reply keeps the invariant. |
| OfflineLog.RemoveTakesShots | Captain Cue/Captain Cue/Helpers/Data Service/DataServiceManager.swift:222-237 | Deleting a report deletes exactly it and the shots that name it: none stays in the store, each has a deletion as its only record, online each deletion was requested, offline nothing, and nothing else changes. |
| OfflineLog.StoresAndRecords | Captain Cue/Captain Cue/Helpers/Data Service/DataServiceManager.swift:190-210 | Adding and updating put the value into the store, leave one record of their kind, and online ask for the value to be put, with one request for each record of the log; nothing else changes. |
| OfflineLog.BackgroundSteps | Captain Cue/Captain Cue/Helpers/Data Service/DataServiceManager.swift:54-144 | Nothing but a user action changes the store, without a network nothing is requested, and only a success takes a record from the log, its own. |
| OfflineLog.AcknowledgedSettles | Captain Cue/Captain Cue/Helpers/Data Service/DataServiceManager.swift:121-126 | Once the remote has applied a request of the latest record, all requests still queued for the object repeat it. |
| OfflineLog.DeletedIsNoted | Captain Cue/Captain Cue/Helpers/Data Service/DataServiceManager.swift:235-236 | Sending the deletion before or after removing the object locally comes to the same. |
| OfflineLog.Convergence | Captain Cue/Captain Cue/Helpers/Data Service/DataServiceManager.swift:76-237 | In every reachable state each object has at most one pending record, and an object with none is equal on both sides, even while requests for it are still in flight. |
| OfflineLog.Recovery | Captain Cue/Captain Cue/Helpers/Data Service/DataServiceManager.swift:76-115 | From every reachable state, once the network is available again, every run in which requests are acknowledged and replies delivered, in any order, ends after a bounded number of steps, and ends with an empty log and the remote equal to the unchanged local contents. |
| OfflineLog.RecoveryIsPossible | Captain Cue/Captain Cue/Helpers/Data Service/DataServiceManager.swift:76-115 | From every reachable state there is such a run. |
| Backup.BackupTask.DataLoaded | Captain Cue/Captain Cue/Helpers/Data Service/DataServiceManager.swift:300-317 | A download that arrived. |
| Backup.BackupTask.CheckLoadingDataDone | Captain Cue/Captain Cue/Helpers/Data Service/DataServiceManager.swift:319-356 | With both downloads there, one deletion for each object in the cloud, and nothing before. |
| Backup.BackupTask.Advance | Captain Cue/Captain Cue/Helpers/Data Service/DataServiceManager.swift:335-336 | Progress rises by one and is reported against the total. |
| Backup.BackupTask.ObjectDeleted | Captain Cue/Captain Cue/Helpers/Data Service/DataServiceManager.swift:329-351 | The deletion handler; the last deletion of a collection starts its uploads. |
| Backup.BackupTask.ObjectUploaded | Captain Cue/Captain Cue/Helpers/Data Service/DataServiceManager.swift:340-347 | The upload handler. |
| Backup.BackupTask.Complete | Captain Cue/Captain Cue/Helpers/Data Service/DataServiceManager.swift:300-386 | Every delivered reply is the corresponding step of the state machine and keeps its invariant. |
| Backup.StepKeeps | Captain Cue/Captain Cue/Helpers/Data Service/DataServiceManager.swift:290-388 | Every request carried out, lost or refused, and every reply, keeps the invariant. |
| Backup.Safety | Captain Cue/Captain Cue/Helpers/Data Service/DataServiceManager.swift:290-388 | In every interleaving: nothing is requested twice, no upload is issued before all deletions of its collection were acknowledged, reported progress strictly rises and never exceeds the constant total, and completion reported means both remote collections equal the local snapshots. |
| Backup.CompletionIff | Captain Cue/Captain Cue/Helpers/Data Service/DataServiceManager.swift:328-378 | Some run of a backup tells its caller that it is complete if and only if the cloud holds something and no collection has local objects while its cloud collection is empty. |
| Backup.EveryRunCompletes | Captain Cue/Captain Cue/Helpers/Data Service/DataServiceManager.swift:290-388 | Every run in which no request fails and nothing is left under way has told its caller that the backup is complete, if and only if that condition holds. |
| Backup.EveryReplyIsTold | Captain Cue/Captain Cue/Helpers/Data Service/DataServiceManager.swift:300-386 | In every run the caller hears of the start, of each failure once, and of the progress with each deletion and upload that succeeded, and of nothing else. |
| ObjectMapper.SplitJoin | Captain Cue/Pods/ObjectMapper/Sources/Map.swift:107-107 | Splitting a key into components and joining them gives the key back, for every key and delimiter. |
| ObjectMapper.JoinSplit | Captain Cue/Pods/ObjectMapper/Sources/Map.swift:107-107 | Components that do not contain the delimiter come back from the key they make. |
| ObjectMapper.ReadOne | Captain Cue/Pods/ObjectMapper/Sources/Map.swift:149-204 | One component finds in a dictionary the value under it, in an array the element of that index, null as present without a value; a missing key or an index outside finds nothing. |
| ObjectMapper.ReadParts | Captain Cue/Pods/ObjectMapper/Sources/Map.swift:149-204 | Reading a path is reading its second part in what the first part finds, through dictionaries and arrays alike. |
| ObjectMapper.IndexIsRead | Captain Cue/Pods/ObjectMapper/Sources/Map.swift:182-188 | A component is the index it spells, with leading zeros or a plus sign or without; with a minus sign it is negative. |
| ObjectMapper.NoNumber | Captain Cue/Pods/ObjectMapper/Sources/Map.swift:182-188 | A component with anything but digits behind its sign is no index. |
| ObjectMapper.NonemptyParts | Captain Cue/Pods/ObjectMapper/Sources/ToJSON.swift:37-37 | Exactly the empty components of a key are dropped. |
| ObjectMapper.SetAt | Captain Cue/Pods/ObjectMapper/Sources/ToJSON.swift:44-60 | The recursive in-place write computes the updated tree. |
| ObjectMapper.PutGet | Captain Cue/Pods/ObjectMapper/Sources/ToJSON.swift:44-60 | A value written at a nonempty path is read back as present, from any starting tree. |
| ObjectMapper.FrameIff | Captain Cue/Pods/ObjectMapper/Sources/ToJSON.swift:44-60 | A write leaves all incomparable paths as they read before if and only if only dictionaries, nulls and empty arrays lie on its way. |
| ObjectMapper.PutsCommute | Captain Cue/Pods/ObjectMapper/Sources/ToJSON.swift:44-60 | Writes to incomparable paths commute on every tree. |
| ObjectMapper.OrderIndependence | Captain Cue/Pods/ObjectMapper/Sources/ToJSON.swift:44-60 | Writing pairwise incomparable fields in any order gives the same tree. |
| ObjectMapper.FieldsRoundTrip | Captain Cue/Pods/ObjectMapper/Sources/Map.swift:149-204 | After writing any list of pairwise incomparable fields in any order, each one is read back. |
| ObjectMapper.KeyRoundTripIff | Captain Cue/Pods/ObjectMapper/Sources/ToJSON.swift:35-42 | A value written under a key into an empty object is read back under that key if and only if the key is not nested or has no empty component: the writer drops empty components, the reader does not. |
| ObjectMapper.DoubledDelimiter | Captain Cue/Pods/ObjectMapper/Sources/ToJSON.swift:37-37 | A concrete key for which the value cannot be read back. |
| ObjectMapper.Map.Subscript | Captain Cue/Pods/ObjectMapper/Sources/Map.swift:96-122 | Sets key, delimiter and nesting; when reading, presence and value are those of the path, with null and ignoreNil treated as documented. |
| ObjectMapper.Map.SetValue | Captain Cue/Pods/ObjectMapper/Sources/ToJSON.swift:31-42 | Writes the value at the current key. |
| ObjectMapper.MapOutAndIn | Captain Cue/Pods/ObjectMapper/Sources/Map.swift:96-122 | Mapping a value out and in again under one key returns it exactly when the key round trip holds. |

## Left out

- Callback fields, extensions, user stream callbacks: they call arbitrary functions; streams are memory buffers or sizing streams.
- Build variants: `PB_WITHOUT_64BIT`, unpacked arrays, old-style callbacks, the AVR workaround; the variant with malloc is modelled.
- Pointer members of oneofs, and pointers in fixed-count arrays: a repeated oneof submessage is zeroed without a release.
- In-place updates of nested memory: slots, array entries and submessages are values that methods return, so aliasing between them is not captured; streams, heap, iterator, bitset and output buffers are updated in place.
- Releaser.SetFieldToDefault: initialising a fixed-count array also writes a zero count over its first bytes; array contents count as unspecified until decoded, so the write is not modelled.
- ScalarDecoder.DecodeScalar: a scalar keeps its old value when decoding fails, while the C code may have stored the rejected value already; callers must not look at it.
- Decoder.DecodeStaticField: a oneof member that fails to decode after another member was set reads as zero instead of as the other member's bytes.
- Decoder.DecodeEntry: a new scalar entry on the heap counts as unwritten until it is decoded.
- Decoder.DecodeNext: an empty descriptor meets the key of tag 0 with a failure; incoming tags are at least 1.
- Encoder.CheckZeroBytes: where what a pointer points to is larger than the pointer, the comparison goes on behind it; what lies there is arbitrary here, and not tied to the next field.
- Encoder.EncodeValue: memory nobody wrote reads as zero, and payloads of 2^64 bytes or more are refused.
- `pb_decode_delimited`, `pb_decode_nullterminated`, `pb_encode_delimited`: the substream and decode operations they are made of are modelled.
- WireFacts.Varint32Rejects: over-long forms are not covered; the reader accepts some and drops high bits of the fifth byte when more follow.
- UpsetConditions.NothingUpsets: the conditions are sufficient for every descriptor; that an input upsets the books where they fail is shown for arrays of the outermost struct (UpsetInputs.StaleDestination, UpsetInputs.LostDestination).
- OutputStream.OStream.Write: byte counts do not wrap; no buffer has 2^64 bytes.
- Error messages: only success and failure are modelled.
- OfflineLog.DataServiceManager.AddObject: the error for a service that is not configured yet, and the completion argument that is never called.
- OfflineLog.DataServiceManager.CheckAndMergeChange: records of other collections or with an unknown method, which the app never makes.
- Restarting the app: replies that never come are replies that are never delivered, and the check at launch is the check step.
- `checkRestoreAbility`, user edits during a backup, the read-only getters, view controllers, reachability.
- Backup.BackupTask.Advance: progress is reported as two numbers instead of their quotient.
- ObjectMapper's casts, transforms and operator overloads; JSON leaves are one kind of scalar, and the delimiter is a nonempty string.
