# Verified models of LevelDB's iterator and nanopb's codec

A Dafny model of the two libraries this app carries in full source whose behaviour is more than
plumbing, and proofs about that model.

**LevelDB.** `DBIter` turns a sorted stream of `(user key, sequence, type) => value` entries into a
bidirectional cursor over the newest value of each user key as of a snapshot. The model keeps its state
machine (`direction_`, `valid_`, `saved_key_`, `saved_value_`, the position of `iter_`) and both scan
loops, and proves that every run of `Seek`, `SeekToFirst`, `SeekToLast`, `Next` and `Prev` shows exactly
what a plain cursor over a sorted list shows. Below it stand the internal key format, the comparators,
`LookupKey` and the file names.

**nanopb.** A table-driven encoder and decoder of the Protocol Buffers Encoding specification, for static
storage: required, optional, proto3 singular, repeated and oneof fields, nested to any depth. What the
encoder sends and what the decoder makes of any bytes are functions (`WireFormat`, `WireDecode`); the laws
(round trip, merging, packed and unpacked arrays, unknown fields, nesting depth) are proved of the
functions; and the C code itself, with streams, substreams, the cyclic field iterator and the
required-field bitmap, is modelled as classes and methods that are proved to refine the functions.

| files | content |
|---|---|
| `Slices`, `Words`, `LittleEndian` | byte strings, machine words, fixed-width numbers |
| `Comparators`, `InternalKeys`, `LookupKeys`, `FileNames` | keys, orders and names of LevelDB |
| `SnapshotView`, `Scans`, `DbIter` | the list a snapshot shows, the two scans as functions, the iterator as a class |
| `Varints`, `VarintAcceptance`, `ZigZags`, `Schema`, `WireFormat`, `WireDecode` | nanopb's numbers, its data model, and encoder and decoder as functions |
| `WireSpecification`, `SpecExamples` | the wire format in the specification's own numbers |
| `WireLaws`, `DecodeLaws`, `Soundness`, `RoundTrip`, `MessageRoundTrip`, `SameEncoding`, `EncodeFailures`, `ZeroOmitted`, `Defaults`, `RequiredPresence`, `DecodeShape`, `Reencoding`, `Nesting` | the laws |
| `OStreams`, `Storage`, `Encoder`, `IStreams`, `FieldIters`, `RequiredFields`, `Decoder`, `EndToEnd` | nanopb's imperative code |

The build is the one the pods are configured for: `PB_FIELD_32BIT` (so `pb_size_t` is 32 bits wide) and
`PB_ENABLE_MALLOC` (so that switching a oneof looks up its old member).

Where the code differs from what is written about it, the code is modelled:

- `db_iter.cc` says that in reverse the internal iterator rests just before all entries of the current
  key. It rests just above the last *visible* entry before that key; entries newer than the snapshot may
  lie between. `RestsJustBeforeKey` says exactly when the comment is right, `RestsEarlierExample` shows a
  stream on which it is not, and the invariant of `DBIter` is the weaker one.
- `InternalKeyComparator::FindShortestSeparator` asserts that the result is below the limit. The contract
  in `comparator.h` says nothing about equal bounds, and a comparator that shortens and enlarges a user
  key that both bounds share makes the assertion fail: `SeparatorStaysInRange` gives the exact condition,
  `OverreachingEscapes` such a comparator, and the built-in one never does it.
- Acceptance by the 32-bit varint decoder does not mean that the value fits in 32 bits: its overflow guard
  covers five-byte varints only (`OverlongAccepted`), and its bit position is counted in eight bits
  (`WrapsAround`). `Accepts32` says which varints it accepts, for every length, and `ShortIsSpelledIff` when
  the result is the number spelled.
- A message type with no fields treats a record with tag 0 as an error, other types as an unknown field
  (`EmptyDescriptorRejectsTagZero`).
- A oneof that follows another at a distance of exactly `PB_SIZE_MAX` bytes is taken for a part of it
  (`RunningOffsetsAreAbsolute`, `AmbiguousGapExample`).
- The list of owned file names in `filename.cc` leaves out the temporary files that its parser accepts;
  `ParseIffOwned` states the whole list.

"The same message" (`SameMsg`) ignores what is storage and not content: the value of an absent optional,
array slots past the count, unselected oneof members, bytes after a terminator. `SoundMsg` is what an
application must provide: numbers in range, counts within their arrays, strings terminated inside their
member, `which_` zero or a member's tag. The decoder methods need only the layout (`ShapedMsg`) and a
descriptor with distinct non-zero tags (`Described`), the encoder methods only what C's types give
(`StoredMsg`); on what C's types give, sound is exactly `TidyMsg` (`StoredIsSound`).

## Model

| member | source | states |
|---|---|---|
| `Comparators.BytewiseIsLawful` | instagram/Pods/leveldb-library/util/comparator.cc:25-64 | byte-wise comparison is a total order, separators lie in [start, limit) and successors are not below the key: the contract of leveldb/comparator.h |
| `Comparators.FindShortestSeparator` | instagram/Pods/leveldb-library/util/comparator.cc:29-50 | the in-place loop computes the separator function, for every pair of keys |
| `Comparators.FindShortSuccessor` | instagram/Pods/leveldb-library/util/comparator.cc:52-64 | the in-place loop computes the successor function; a run of 0xff is left alone |
| `Comparators.SeparatorIsShortest` | instagram/Pods/leveldb-library/util/comparator.cc:39-49 | where start and limit first differ with a byte free in between, the separator is strictly above start and no key in [start, limit) is shorter; otherwise start stays |
| `Comparators.SuccessorIsShortest` | instagram/Pods/leveldb-library/util/comparator.cc:52-64 | the successor is strictly above the key, cut after the first byte that is not 0xff, and no key above is shorter; a run of 0xff stays |
| `Comparators.PrefixIsBelow` | instagram/Pods/leveldb-library/util/comparator.cc:25-27 | a proper prefix sorts first |
| `InternalKeys.PackSequenceAndType` | instagram/Pods/leveldb-library/db/dbformat.cc:14-18 | the packed number fits in 64 bits and gives the sequence and the type back by a shift and a mask |
| `InternalKeys.ParseUndoesAppend` | instagram/Pods/leveldb-library/db/dbformat.h:165-175 | parsing undoes appending for every key with a sequence number in range |
| `InternalKeys.AppendUndoesParse` | instagram/Pods/leveldb-library/db/dbformat.cc:20-23 | appending undoes parsing: no other byte string spells the same key |
| `InternalKeys.CompareIsTotalOrder` | instagram/Pods/leveldb-library/db/dbformat.cc:51-67 | comparison of encoded keys is a total order, valid type bytes or not |
| `InternalKeys.CompareOrdersParsedKeys` | instagram/Pods/leveldb-library/db/dbformat.cc:51-67 | it is user key up, sequence down, type down |
| `InternalKeys.SeekKeySeparates` | instagram/Pods/leveldb-library/db/dbformat.h:53-59 | an entry sorts before the seek key for (k, s) iff its user key is smaller or it is an entry of k newer than s |
| `InternalKeys.SeparatorStaysInRange` | instagram/Pods/leveldb-library/db/dbformat.cc:69-86 | given a lawful user comparator, the shortened separator lies in [start, limit) iff start and limit do not share a user key that the comparator shortens |
| `InternalKeys.BytewiseSeparatorStaysInRange` | instagram/Pods/leveldb-library/db/dbformat.cc:69-86 | with the byte-wise comparator the exception never arises |
| `InternalKeys.OverreachingEscapes` | instagram/Pods/leveldb-library/db/dbformat.cc:82-83 | a lawful comparator for which the assertion on line 83 fails |
| `InternalKeys.SuccessorStaysAbove` | instagram/Pods/leveldb-library/db/dbformat.cc:88-101 | the short successor is never below the key |
| `InternalKeys.SeparatorShortensIff` | instagram/Pods/leveldb-library/db/dbformat.cc:76-85 | the internal key is shortened iff the user comparator's separator is shorter and larger, and then stands before all entries of the new user key |
| `InternalKeys.SuccessorShortensIff` | instagram/Pods/leveldb-library/db/dbformat.cc:92-100 | the same for the successor |
| `LookupKeys.UnrolledVarint` | instagram/Pods/leveldb-library/util/coding.cc:47-73 | the five unrolled branches write the same bytes as the base-128 loop, at most five of them |
| `LookupKeys.LookupKey.constructor` | instagram/Pods/leveldb-library/db/dbformat.cc:121-138 | usize + 13 bytes always suffice; the three accessors give the length-prefixed key, the seek key and the user key |
| `LookupKeys.GetVarint32Ptr` | instagram/Pods/leveldb-library/util/coding.cc:112-128 | fast path and loop, at most five bytes, refine the reader function |
| `LookupKeys.GetVarint32Iff` | instagram/Pods/leveldb-library/util/coding.cc:112-128 | it accepts exactly the varints of at most five bytes |
| `LookupKeys.Varint32RoundTrip` | instagram/Pods/leveldb-library/util/coding.cc:47-73 | LevelDB's reader undoes its unrolled writer on any continuation |
| `LookupKeys.PrefixDelimits` | instagram/Pods/leveldb-library/db/memtable.cc:14-19 | reading the length prefix finds exactly the internal key iff its size fits in 32 bits |
| `SnapshotView.ViewIsNewestValues` | instagram/Pods/leveldb-library/db/db_iter.cc:34-38 | the view is strictly ascending and holds exactly the newest visible value of each user key that is not deleted |
| `SnapshotView.ViewIgnoresNewerEntries` | instagram/Pods/leveldb-library/db/db_iter.cc:174-193 | streams that agree at or below the snapshot have the same view |
| `Scans.NextShownIsFirst` | instagram/Pods/leveldb-library/db/db_iter.cc:172-197 | the forward skip loop stops at the first shown entry, from any state its invariant allows |
| `Scans.PrevShownIsLast` | instagram/Pods/leveldb-library/db/db_iter.cc:230-256 | the backward accumulating loop ends with the last shown entry, and only invisible entries between it and the resting position |
| `Scans.SeekReaches` | instagram/Pods/leveldb-library/db/db_iter.cc:273-275 | after the internal seek no visible entry at or past the target has been passed |
| `Scans.NextFromShown` | instagram/Pods/leveldb-library/db/db_iter.cc:141-166 | Next in either direction is the cursor's step up |
| `Scans.PrevFromShown` | instagram/Pods/leveldb-library/db/db_iter.cc:200-225 | Prev in either direction is the cursor's step down |
| `Scans.RestsJustBeforeKey` | instagram/Pods/leveldb-library/db/db_iter.cc:44-45 | the documented resting place holds iff the entry just before the key's entries, if any, is visible |
| `Scans.RestsEarlierExample` | instagram/Pods/leveldb-library/db/db_iter.cc:44-45 | a sorted stream on which the documented resting place is wrong |
| `DbIter.DBIter.Key` | instagram/Pods/leveldb-library/db/db_iter.cc:64-67 | the key of the cursor's pair |
| `DbIter.DBIter.Value` | instagram/Pods/leveldb-library/db/db_iter.cc:68-71 | the value of the cursor's pair |
| `DbIter.DBIter.ParseKey` | instagram/Pods/leveldb-library/db/db_iter.cc:133-138 | parses the current entry; the status turns to corruption exactly when that fails |
| `DbIter.DBIter.FindNextUserEntry` | instagram/Pods/leveldb-library/db/db_iter.cc:168-198 | the loop lands where the forward scan function says, valid iff there is such an entry |
| `DbIter.DBIter.FindPrevUserEntry` | instagram/Pods/leveldb-library/db/db_iter.cc:227-267 | the loop saves the pair the backward scan function says and rests where it says |
| `DbIter.DBIter.Next` | instagram/Pods/leveldb-library/db/db_iter.cc:141-166 | keeps the invariant and moves the cursor one up, direction switch included |
| `DbIter.DBIter.Prev` | instagram/Pods/leveldb-library/db/db_iter.cc:200-225 | keeps the invariant and moves the cursor one down, direction switch included |
| `DbIter.DBIter.Seek` | instagram/Pods/leveldb-library/db/db_iter.cc:269-281 | the first pair at or after the target |
| `DbIter.DBIter.SeekToFirst` | instagram/Pods/leveldb-library/db/db_iter.cc:283-292 | the first pair |
| `DbIter.DBIter.SeekToLast` | instagram/Pods/leveldb-library/db/db_iter.cc:294-299 | the last pair |
| `DbIter.Perform` | instagram/Pods/leveldb-library/db/db_iter.cc:63-84 | one call refines one step of a cursor over the view, and shows its pair |
| `DbIter.Run` | instagram/Pods/leveldb-library/db/db_iter.cc:141-299 | every run of calls shows exactly what a cursor over the snapshot's list shows |
| `DbIter.RunOnBoth` | instagram/Pods/leveldb-library/db/db_iter.cc:168-198 | snapshot isolation: two iterators over streams that agree at or below the snapshot show the same on every run of calls |
| `DbIter.NextThenPrev` | instagram/Pods/leveldb-library/db/db_iter.cc:200-225 | Next stays valid iff there is a next pair, and then Prev returns to the same key and value |
| `DbIter.PrevThenNext` | instagram/Pods/leveldb-library/db/db_iter.cc:141-166 | Prev stays valid iff there is a previous pair, and then Next returns to the same key and value |
| `FileNames.ConsumeDecimalNumber` | instagram/Pods/leveldb-library/util/logging.cc:51-83 | reads the maximal run of digits; refuses exactly when there is none or the number needs more than 64 bits |
| `FileNames.PaddedIff` | instagram/Pods/leveldb-library/db/filename.cc:23-24 | a string is the printed number iff it denotes it in six digits below a million and without a leading zero from there on |
| `FileNames.NameIsPrinted` | instagram/Pods/leveldb-library/db/filename.cc:20-49 | the names in the directory, character for character: slash, number, dot and suffix, or MANIFEST- and number |
| `FileNames.ParsePrinted` | instagram/Pods/leveldb-library/db/filename.cc:20-41 | a printed log, table or temporary name, directory removed, parses to its number and type |
| `FileNames.ParsePrintedManifest` | instagram/Pods/leveldb-library/db/filename.cc:43-49 | so does a manifest name |
| `FileNames.NamesInjective` | instagram/Pods/leveldb-library/db/filename.cc:20-26 | printed names are injective in number and suffix, whatever the suffix |
| `FileNames.ParseIffOwned` | instagram/Pods/leveldb-library/db/filename.cc:78-121 | a name parses to (number, type) iff it is an owned name of that number and type |
| `Varints.TenBytes` | instagram/Pods/nanopb/pb_encode.c:574-594 | a 64-bit varint has at most ten bytes |
| `VarintAcceptance.VarintRoundTrip` | instagram/Pods/nanopb/pb_decode.c:250-270 | the 64-bit decoder undoes the encoder on any continuation of the stream |
| `VarintAcceptance.Varint32RoundTrip` | instagram/Pods/nanopb/pb_decode.c:182-242 | the 32-bit decoder accepts every uint32 |
| `VarintAcceptance.SignExtendedAccepted` | instagram/Pods/nanopb/pb_decode.c:214-223 | the 32-bit decoder accepts every negative int32 sign-extended to 64 bits, as its low word |
| `Varints.DecodersAgree` | instagram/Pods/nanopb/pb_decode.c:182-270 | where both decoders succeed the short result is the long one modulo 2^32, on the same bytes |
| `VarintAcceptance.Accepts64` | instagram/Pods/nanopb/pb_decode.c:250-270 | the 64-bit decoder accepts exactly the varints of at most ten bytes |
| `VarintAcceptance.Accepts32` | instagram/Pods/nanopb/pb_decode.c:182-242 | the 32-bit decoder accepts a varint of any length iff every byte past the word pads the value or its sign and a last byte at bit 28 has at most four bits; the bit position is counted modulo 256 |
| `VarintAcceptance.Accepts32Bytes` | instagram/Pods/nanopb/pb_decode.c:211-237 | the same byte by byte for up to 37 bytes, before the bit position wraps |
| `VarintAcceptance.ShortIsSpelledIff` | instagram/Pods/nanopb/pb_decode.c:226-237 | an accepted result is the number the bytes spell iff no byte puts anything above bit 31, for every length |
| `VarintAcceptance.DecodersEqualIff` | instagram/Pods/nanopb/pb_decode.c:182-270 | where both decoders succeed they give the same number iff no byte puts anything above bit 31 |
| `VarintAcceptance.PastTenBytes` | instagram/Pods/nanopb/pb_decode.c:211-231 | past ten bytes the 64-bit decoder refuses, and the 32-bit one accepts exactly zero or sign padding |
| `VarintAcceptance.WrapsAround` | instagram/Pods/nanopb/pb_decode.c:230-231 | a 38-byte varint on which the bit position has wrapped: bit 259 is accepted as bit 3 |
| `VarintAcceptance.OverlongAccepted` | instagram/Pods/nanopb/pb_decode.c:233-237 | an input on which acceptance does not bound the value: a six-byte spelling of 0x700000000 is accepted as 0 |
| `ZigZags.BranchFreeDecodes` | instagram/Pods/Protobuf/objectivec/GPBUtilities_PackagePrivate.h:125-141 | in 32 and 64 bits, branch-free decoding undoes encoding, and in 64 the encoder equals nanopb's branching one |
| `ZigZags.BranchFreeEncodes` | instagram/Pods/Protobuf/objectivec/GPBUtilities_PackagePrivate.h:109-123 | the other composition, and the decoder equals nanopb's |
| `ZigZags.EncodesZigZag` | instagram/Pods/nanopb/pb_encode.c:596-605 | both encoders number the signed integers 0, -1, 1, -2, ... within the word |
| `ZigZags.DecodesZigZag` | instagram/Pods/nanopb/pb_decode.c:1240-1252 | both decoders invert that numbering |
| `FieldIters.RunningOffsetsAreAbsolute` | instagram/Pods/nanopb/pb.h:395-399 | for descriptors built by the layout macros from the members' offsets and sizes, the running pointer is the member's offset at every field iff no two adjacent oneofs lie exactly PB_SIZE_MAX apart |
| `FieldIters.AmbiguousGapExample` | instagram/Pods/nanopb/pb_common.c:44-50 | a descriptor built by the macros in which a second oneof is taken for a part of the first |
| `FieldIters.FieldIter.constructor` | instagram/Pods/nanopb/pb_common.c:8-18 | starts at the first field with its pointers |
| `FieldIters.FieldIter.Next` | instagram/Pods/nanopb/pb_common.c:20-76 | the cyclic successor with pointers and required index kept right; false exactly when it wraps |
| `FieldIters.FieldIter.Find` | instagram/Pods/nanopb/pb_common.c:78-95 | from any position one cycle at most; true iff some field has the tag, and then it stands there |
| `RequiredFields.Mask` | instagram/Pods/nanopb/pb_decode.c:1039-1040 | allbits shifted right by 32 - n has exactly the low n bits |
| `RequiredFields.SetBit` | instagram/Pods/nanopb/pb_decode.c:991-992 | or-ing a shifted one sets that bit and changes no other |
| `RequiredFields.MarkSeen` | instagram/Pods/nanopb/pb_decode.c:988-993 | the bitmap goes on holding exactly the required indices seen |
| `RequiredFields.CountRequired` | instagram/Pods/nanopb/pb_decode.c:1015-1022 | counts all required fields from any position, last-field fixup included |
| `RequiredFields.CompareWords` | instagram/Pods/nanopb/pb_decode.c:1027-1045 | whole words and the partial word are compared with the right masks |
| `RequiredFields.BitsAreMarks` | instagram/Pods/nanopb/pb_decode.c:1024-1045 | those words match iff each of the first min(count, 64) required indices is marked |
| `RequiredFields.CheckRequired` | instagram/Pods/nanopb/pb_decode.c:1006-1046 | passes iff each of the first 64 required fields occurred |
| `RequiredPresence.AcceptsIff` | instagram/Pods/nanopb/pb_decode.c:1006-1046 | pb_decode_noinit accepts iff its records decode and each of the first 64 required fields has its tag on one of them |
| `RequiredPresence.EmptyAcceptedIff` | instagram/Pods/nanopb/pb_decode.c:1006-1046 | the empty message is accepted iff nothing is required |
| `RequiredPresence.MissingFieldRefused` | instagram/Pods/nanopb/pb_decode.c:1028-1045 | an encoding without one of the first 64 required fields is refused, whatever the struct and the other fields |
| `RequiredPresence.FieldSkips` | instagram/Pods/nanopb/pb_decode.c:316-326 | a field decoded under its own wire type ends where pb_skip_field would |
| `WireFormat.StrLen` | instagram/Pods/nanopb/pb_encode.c:844-851 | the length up to the first NUL or the end of the member |
| `WireSpecification.TaggedOnTheWire` | instagram/Pods/nanopb/pb_encode.c:635-672 | a value goes out after the key 8 * tag + wire type, with 0 for integers, 1 for 64 bits, 2 for length-delimited types and 5 for 32 bits |
| `WireSpecification.ArrayOnTheWire` | instagram/Pods/nanopb/pb_encode.c:133-182 | an empty array sends nothing; number arrays send one record of wire type 2 with the length and all elements, other arrays one record each |
| `WireSpecification.IntOnTheWire` | instagram/Pods/nanopb/pb_encode.c:734-791 | integers are spelled as varints of their 64-bit two's complement, of themselves, or of their zigzag number |
| `WireSpecification.FixedOnTheWire` | instagram/Pods/nanopb/pb_encode.c:607-632 | fixed-width numbers are four or eight bytes, the low one first |
| `WireSpecification.BytesOnTheWire` | instagram/Pods/nanopb/pb_encode.c:810-868 | bytes, text up to the NUL, fixed-length bytes and submessages are their length and exactly their bytes |
| `WireSpecification.SkipOnTheWire` | instagram/Pods/nanopb/pb_decode.c:316-326 | wire type 0 skips one varint, 1 eight bytes, 2 a length and its bytes, 5 four bytes; all others fail |
| `SpecExamples.Test1Encodes` | instagram/Pods/nanopb/pb_encode.c:494-516 | the specification's first example: 150 under tag 1 is 08 96 01 |
| `SpecExamples.Test2Encodes` | instagram/Pods/nanopb/pb_encode.c:831-855 | its string example: testing under tag 2 is 12 07 and the text |
| `SpecExamples.Test3Encodes` | instagram/Pods/nanopb/pb_encode.c:682-730 | its embedded message: 1a 03 08 96 01 |
| `SpecExamples.Test4Encodes` | instagram/Pods/nanopb/pb_encode.c:139-182 | its packed array: 22 06 03 8e 02 9e a7 05 |
| `EncodeFailures.EncodesIff` | instagram/Pods/nanopb/pb_encode.c:126-137 | a struct of C's types encodes iff nothing sent has an impossible integer width or a byte count past its member, and no count exceeds its array, at every level |
| `ZeroOmitted.LeftOutIff` | instagram/Pods/nanopb/pb_encode.c:215-303 | a proto3 field is left out iff it holds the same as zero and its type's zero is left out at all: never with a required field inside, and for fixed-length bytes only at length zero |
| `ZeroOmitted.ZeroIs` | instagram/Pods/nanopb/pb_encode.c:244-301 | what zero is, type by type |
| `WireLaws.LoopSplits` | instagram/Pods/nanopb/pb_decode.c:919-997 | decoding a ++ b is decoding a and then resuming on b, for every input a that decodes |
| `WireLaws.MergeLaw` | instagram/Pods/nanopb/pb_decode.h:74-75 | after a without a zero tag, a ++ b decodes iff the records of b do into the same struct, with the same result and unread input |
| `WireLaws.MergeTwoMessages` | instagram/Pods/nanopb/pb_decode.c:901-1049 | two successful pb_decode_noinit calls equal one on the concatenation |
| `WireLaws.ZeroTagBlocksMerge` | instagram/Pods/nanopb/pb_decode.c:305-309 | the excluded case exactly: after a zero tag nothing of b is read |
| `WireLaws.TagRoundTrip` | instagram/Pods/nanopb/pb_decode.c:293-314 | decoding a tag undoes encoding it, for every tag below 2^29 |
| `WireLaws.SkipUndoesEncode` | instagram/Pods/nanopb/pb_decode.c:316-326 | pb_skip_field consumes exactly what the matching encoder writes |
| `WireLaws.EncodedIsUnknown` | instagram/Pods/nanopb/pb_encode.c:641-680 | an encoded field with an undeclared tag is skipped as one record |
| `WireLaws.UnknownFieldsIgnored` | instagram/Pods/nanopb/pb_decode.c:933-962 | inserting it between records changes neither the result nor the struct |
| `WireLaws.EmptyDescriptorRejectsTagZero` | instagram/Pods/nanopb/pb_common.c:82-91 | on an empty descriptor a record with tag 0, however its tag is spelled, is an error instead of an unknown field |
| `WireLaws.PackedEqualsTagged` | instagram/Pods/nanopb/pb_decode.c:419-459 | a packed record and the same elements sent as tagged records decode alike, from any starting count, failures included |
| `DecodeLaws.IntAcceptedIff` | instagram/Pods/nanopb/pb_decode.c:1289-1372 | an integer is accepted iff its varint has at most ten bytes and the number it reads as fits the field's width; that number is stored |
| `DecodeLaws.BytesAcceptedIff` | instagram/Pods/nanopb/pb_decode.c:1391-1508 | a length-delimited value is accepted iff its length is readable, fits the member and is all there; fixed-length bytes take all or none, and none means zeros |
| `DecodeLaws.FullArrayRefuses` | instagram/Pods/nanopb/pb_decode.c:424-459 | a full array refuses any further element |
| `DecodeLaws.CorruptUnionRefuses` | instagram/Pods/nanopb/pb_decode.c:1104-1128 | a oneof with a which_ of no field refuses every record |
| `DecodeLaws.ZeroTagEnds` | instagram/Pods/nanopb/pb_decode.c:305-309 | a zero tag in any spelling ends the message there |
| `DecodeLaws.LastOneWins` | instagram/Pods/nanopb/pb_decode.c:401-415 | what a record stores does not depend on an earlier record of the field |
| `DecodeLaws.SubmessagesMerge` | instagram/Pods/nanopb/pb_decode.c:1463-1485 | two records of a submessage are one record of the two bodies together |
| `RoundTrip.ScalarRoundTrip` | instagram/Pods/nanopb/pb_decode.c:1289-1461 | each pb_dec_* undoes its pb_enc_* over any earlier contents of the member |
| `Soundness.DefaultsFresh` | instagram/Pods/nanopb/pb_decode.c:812-895 | setting defaults yields a well-laid-out struct on which setting defaults changes nothing |
| `Defaults.DefaultsInitialise` | instagram/Pods/nanopb/pb_decode.c:812-895 | every member holds its declared default or zero, has_ is false, counts and which_ are 0, at every level, whatever the struct held |
| `Defaults.UnreadHoldsDefault` | instagram/Pods/nanopb/pb_decode.c:1051-1063 | after pb_decode, every field with no record holds its default and a oneof with none is unset |
| `MessageRoundTrip.EncodeSucceeds` | instagram/Pods/nanopb/pb_encode.c:494-516 | every sound struct encodes |
| `MessageRoundTrip.DefaultMsgSame` | instagram/Pods/nanopb/pb_encode.c:215-303 | a submessage the proto3 check leaves out is the same message as a freshly initialised one |
| `MessageRoundTrip.PackedItemsRoundTrip` | instagram/Pods/nanopb/pb_encode.c:139-182 | the elements of a packed array come back in order |
| `MessageRoundTrip.MsgRoundTrip` | instagram/Pods/nanopb/pb_decode.c:901-1049 | decoding an encoded message into a fresh struct consumes all of it and gives the same message, at every nesting depth |
| `MessageRoundTrip.EncodeDecodeRoundTrip` | instagram/Pods/nanopb/pb_decode.c:1051-1063 | for every descriptor tree and sound struct, decode after encode succeeds, consumes everything and gives the same message |
| `SameEncoding.SameEncodes` | instagram/Pods/nanopb/pb_encode.c:494-516 | structs that hold the same message have the same encoding, whatever else their storage holds |
| `SameEncoding.SameMessageIff` | instagram/Pods/nanopb/pb_encode.c:494-516 | for sound structs with encodings below 4 GB: equal encodings iff equal messages |
| `DecodeShape.LoopShaped` | instagram/Pods/nanopb/pb_decode.c:919-997 | whatever the input, a successful decode keeps array lengths, buffer sizes, nesting and unions |
| `Reencoding.DefaultsSafe` | instagram/Pods/nanopb/pb_decode.c:812-895 | a struct set to defaults is sound, whatever it held |
| `Reencoding.LoopSafe` | instagram/Pods/nanopb/pb_decode.c:919-997 | from any accepted input: numbers in range, counts within arrays, strings terminated, which_ a member's tag |
| `Reencoding.DecodedReencodes` | instagram/Pods/nanopb/pb_decode.c:1051-1063 | whatever pb_decode accepts, pb_encode can write, and decoding that gives the same message again |
| `Nesting.DepthBound` | instagram/Pods/nanopb/pb_decode.c:1463-1485 | decoding n bytes nests at most 1 + n/2 calls of pb_decode_noinit, on failing input too |
| `Nesting.DepthReached` | instagram/Pods/nanopb/pb_decode.c:1463-1485 | chains of up to 64 messages reach the bound exactly |
| `OStreams.Then` | instagram/Pods/nanopb/pb_encode.c:101-119 | two steps in a row are one step of the concatenated encoding |
| `OStreams.OStream.BufWrite` | instagram/Pods/nanopb/pb_encode.c:72-82 | exactly count bytes of the buffer change, to the data |
| `OStreams.OStream.Write` | instagram/Pods/nanopb/pb_encode.c:101-119 | succeeds iff there is room; a sizing stream only counts |
| `Encoder.VarintDigits` | instagram/Pods/nanopb/pb_encode.c:585-591 | the digit loop and the last-byte fixup fill a ten-byte buffer with the varint |
| `Encoder.EncodeVarint` | instagram/Pods/nanopb/pb_encode.c:574-594 | sends the varint iff it fits |
| `Encoder.EncodeSVarint` | instagram/Pods/nanopb/pb_encode.c:596-605 | sends the varint of the zigzag number |
| `Encoder.EncodeFixed32` | instagram/Pods/nanopb/pb_encode.c:607-616 | sends four little-endian bytes |
| `Encoder.EncodeFixed64` | instagram/Pods/nanopb/pb_encode.c:619-632 | sends eight little-endian bytes |
| `Encoder.EncodeTagForField` | instagram/Pods/nanopb/pb_encode.c:641-672 | sends the tag with the wire type of the field's type |
| `Encoder.EncodeStringTo` | instagram/Pods/nanopb/pb_encode.c:674-680 | sends length and bytes |
| `Encoder.EncBytes` | instagram/Pods/nanopb/pb_encode.c:810-829 | refuses a size past the member, else sends that many bytes |
| `Encoder.EncString` | instagram/Pods/nanopb/pb_encode.c:831-855 | the strnlen loop finds the text it sends |
| `Encoder.EncValue` | instagram/Pods/nanopb/pb_encode.c:55-66 | each type's encoder refines the value's encoding |
| `Encoder.EncodeNested` | instagram/Pods/nanopb/pb_encode.c:706-729 | the pass on a stream limited to the counted size sends exactly that many bytes, or nothing fits |
| `Encoder.EncodeSubmessage` | instagram/Pods/nanopb/pb_encode.c:682-730 | sizing pass, length and limited second pass send length and body iff both fit; the two sizes never differ |
| `Encoder.PackedSize` | instagram/Pods/nanopb/pb_encode.c:145-167 | the size computed or counted beforehand is the size of the packed items |
| `Encoder.EncodePacked` | instagram/Pods/nanopb/pb_encode.c:140-182 | tag, size and items, on sizing and writing streams alike |
| `Encoder.EncodeArray` | instagram/Pods/nanopb/pb_encode.c:126-211 | refines the array's encoding, over-long counts refused |
| `Encoder.IsDefaultValue` | instagram/Pods/nanopb/pb_encode.c:242-302 | the recursive and the byte-wise zero tests decide whether the value is the proto3 default |
| `Encoder.IsDefaultField` | instagram/Pods/nanopb/pb_encode.c:215-241 | likewise for any field of a proto3 submessage |
| `Encoder.EncodeBasicField` | instagram/Pods/nanopb/pb_encode.c:307-392 | refines the field's encoding for every rule |
| `Encoder.PbEncode` | instagram/Pods/nanopb/pb_encode.c:494-516 | succeeds iff the message encodes and fits; then exactly its bytes went out; in every run nothing is written outside the window |
| `Encoder.GetEncodedSize` | instagram/Pods/nanopb/pb_encode.c:533-542 | the sizing run reports exactly the number of bytes of the encoding |
| `Encoder.EncodeToBuffer` | instagram/Pods/nanopb/pb_encode.c:84-99 | into capacity n it succeeds iff the encoded size is at most n; nothing past n is touched in any run |
| `IStreams.IStream.Read` | instagram/Pods/nanopb/pb_decode.c:100-132 | reads iff enough is left; position + bytes_left is conserved |
| `IStreams.IStream.ReadByte` | instagram/Pods/nanopb/pb_decode.c:136-152 | the next byte, iff there is one |
| `IStreams.DecodeVarint` | instagram/Pods/nanopb/pb_decode.c:250-270 | the loop refines the 64-bit decoder and conserves the end |
| `IStreams.DecodeVarint32` | instagram/Pods/nanopb/pb_decode.c:182-242 | the loop refines the 32-bit decoder, 8-bit bit position included |
| `IStreams.DecodeVarint32Eof` | instagram/Pods/nanopb/pb_decode.c:182-242 | eof is set exactly at the end of the stream |
| `IStreams.DecodeTagFrom` | instagram/Pods/nanopb/pb_decode.c:293-314 | a tag, the end of the message by a zero tag or an empty stream, or an error |
| `IStreams.SkipFieldFrom` | instagram/Pods/nanopb/pb_decode.c:316-326 | skips exactly one value of the wire type |
| `IStreams.MakeStringSubstream` | instagram/Pods/nanopb/pb_decode.c:367-380 | the substream holds exactly the announced bytes and the parent's count excludes them |
| `IStreams.CloseStringSubstream` | instagram/Pods/nanopb/pb_decode.c:382-395 | never fails, and leaves the parent at the substream's end whatever was read of it |
| `Decoder.DecScalarFrom` | instagram/Pods/nanopb/pb_decode.c:1289-1508 | each type's decoder refines its function and conserves the end |
| `Decoder.DecodePacked` | instagram/Pods/nanopb/pb_decode.c:428-446 | the packed loop refines its function, array overflow included |
| `Decoder.MessageSetToDefaults` | instagram/Pods/nanopb/pb_decode.c:812-895 | the recursive in-place walk computes the defaults of the whole struct, and leaves every member at its declared default or zero |
| `Decoder.DecSubmessage` | instagram/Pods/nanopb/pb_decode.c:1463-1485 | the parent ends exactly past the submessage, whatever the inner decode consumed |
| `Decoder.ReleaseUnionField` | instagram/Pods/nanopb/pb_decode.c:1104-1128 | fails iff the old tag is no field's, and otherwise restores the iterator |
| `Decoder.DecodeStaticField` | instagram/Pods/nanopb/pb_decode.c:401-475 | refines the field decoder for every rule |
| `Decoder.DecodeRecord` | instagram/Pods/nanopb/pb_decode.c:933-997 | known fields are marked and decoded, others skipped |
| `Decoder.DecodeNoInit` | instagram/Pods/nanopb/pb_decode.c:901-1049 | succeeds iff its specification does, with the same struct, position + bytes_left conserved, and a call depth of at most 1 + n/2 |
| `Decoder.Decode` | instagram/Pods/nanopb/pb_decode.c:1051-1063 | the same for pb_decode: result, struct, conserved end and call depth |
| `EndToEnd.StoredIsSound` | instagram/Pods/nanopb/pb_encode.c:810-855 | on a struct of C's types, what the round trip asks for is exactly counts, sizes, terminators and oneof tags in order |
| `EndToEnd.EncodeThenDecode` | instagram/Pods/nanopb/pb_encode.c:494-516 | through a buffer: sent iff it fits in the capacity, and then, below 4 GB, accepted, read to the end, and the same message |

## Left out

- The Swift app, ActiveLabel, GTMSessionFetcher and the Objective-C headers: user interface, foreign frameworks, declarations.
- The rest of LevelDB (memtables, tables, compaction, `SetCurrentFile`, `c.cc`, `builder.cc`): the internal iterator is a position in a strictly sorted sequence of entries, the user comparator any total order on byte strings.
- Read sampling in `DBIter::ParseKey`, the capacity thresholds of `saved_value_`, `iter_->status()`: they do not affect what is shown.
- The debug printers, `InternalFilterPolicy` and the `InternalKey` wrapper: one-line delegations.
- nanopb callbacks, extensions, custom stream callbacks, pointer fields with their allocation and release, fixed-count arrays, `PB_WITHOUT_64BIT`, error texts.
- `pb_encode_delimited`, `pb_encode_nullterminated`, `pb_decode_delimited`: one call more around modelled functions.
- Encodings of 4 GB and more: lengths are read back as 32-bit numbers, so the round trip is stated below that size; `size_t` arithmetic is taken not to overflow, and a submessage's size to fit in 64 bits.
- Structs as C bytes: a struct is a typed value, members are found by field, and a decoder returns the new struct instead of updating it through pointers. Offsets are modelled for the field iterator only; the members of a oneof have separate storage, so what an old member leaves behind in a new one's bytes past its size is not modelled.
- Decoder.DecodeNoInit: what the struct holds after a failed decode is not stated.
- Decoder.DecodeField: releasing the old oneof member is modelled only as far as it can fail and moves the iterator, since nothing is allocated in static storage.
